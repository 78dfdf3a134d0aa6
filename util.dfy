/** The file-name helpers of util.go: read the numeric id at the end of a file
    name, strip a directory prefix, and renumber a file name by a delta. Also
    the decimal formatting (fmt "%d", strconv.Itoa), parsing (strconv.Atoi),
    strings.Replace and path.Join they are built from. */
module FileNames {
  import opened Bytes

  predicate IsDigit(c: char)
  {
    '0' <= c <= '9'
  }

  predicate AllDigits(s: string)
  {
    forall i :: 0 <= i < |s| ==> IsDigit(s[i])
  }

  /** The decimal digits of n, most significant first, without leading zeros. */
  function Digits(n: nat): (s: string)
    ensures |s| > 0 && AllDigits(s)
  {
    if n < 10 then [('0' as int + n) as char]
    else Digits(n / 10) + [('0' as int + n % 10) as char]
  }

  /** fmt.Sprintf("%d", n) and strconv.Itoa(n). */
  function Itoa(n: int): (s: string)
    ensures |s| > 0 && '.' !in s
    ensures 0 <= n ==> IsDigit(s[0])
    ensures n < 0 ==> s[0] == '-'
  {
    if n < 0 then "-" + Digits(-n) else Digits(n)
  }

  /** The number a string of decimal digits denotes. */
  function DecimalValue(s: string): nat
    requires AllDigits(s)
  {
    if s == [] then 0 else DecimalValue(s[..|s| - 1]) * 10 + (s[|s| - 1] as int - '0' as int)
  }

  lemma {:induction false} DecimalValueOfDigits(n: nat)
    ensures DecimalValue(Digits(n)) == n
  {
    if n >= 10 {
      var s := Digits(n);
      assert s[..|s| - 1] == Digits(n / 10);
      DecimalValueOfDigits(n / 10);
    }
  }

  function Pow10(n: nat): nat
  {
    if n == 0 then 1 else 10 * Pow10(n - 1)
  }

  lemma {:induction false} Pow10Add(a: nat, b: nat)
    ensures Pow10(a + b) == Pow10(a) * Pow10(b)
  {
    if a > 0 {
      Pow10Add(a - 1, b);
    }
  }

  /** n nines denote 10^n - 1. */
  lemma {:induction false} NinesValue(n: nat)
    ensures AllDigits(seq(n, _ => '9')) && DecimalValue(seq(n, _ => '9')) == Pow10(n) - 1
  {
    if n > 0 {
      assert seq(n, _ => '9')[..n - 1] == seq(n - 1, _ => '9');
      NinesValue(n - 1);
    }
  }

  /** The leading run of decimal digits of s: where a digit-by-digit parse
      stops at the first character that is not a digit. */
  function DigitRun(s: string): (r: string)
    ensures |r| <= |s| && r == s[..|r|] && AllDigits(r)
    ensures |r| < |s| ==> !IsDigit(s[|r|])
  {
    if s == [] || !IsDigit(s[0]) then []
    else
      var rest := DigitRun(s[1..]);
      assert forall i :: 1 <= i < |rest| + 1 ==> ([s[0]] + rest)[i] == rest[i - 1];
      [s[0]] + rest
  }

  /** A string of digits is its own digit run. */
  lemma DigitRunOfDigits(s: string)
    requires AllDigits(s)
    ensures DigitRun(s) == s
  {
  }

  /** The text strconv parses once an optional leading sign is taken off. */
  function Unsigned(s: string): (u: string)
    ensures |u| <= |s|
  {
    if |s| > 0 && (s[0] == '+' || s[0] == '-') then s[1..] else s
  }

  /** strconv.Atoi(s) on a 64-bit platform, with its error dropped, as every
      caller in the source does. After an optional sign, strconv.ParseUint
      reads digits until the first non-digit. When the digits read so far
      pass math.MaxUint64, it returns at once with a range error, and
      strconv.ParseInt clamps that to math.MaxInt64, or to math.MinInt64
      after a '-'. When it reaches a non-digit first, or there are no digits
      at all, the result is 0. A number that is all digits gives its value,
      clamped to the int64 range. (The fast path Atoi takes below 19 bytes
      gives the same results, since no such number can overflow.) */
  function Atoi(s: string): int64
  {
    var digits := Unsigned(s);
    if digits != [] && AllDigits(digits) then
      var v := if s[0] == '-' then -(DecimalValue(digits) as int) else DecimalValue(digits) as int;
      if v > MaxInt64 then MaxInt64 else if v < -TwoTo63 then -TwoTo63 else v
    else if DecimalValue(DigitRun(digits)) >= TwoTo64 then
      if s[0] == '-' then -TwoTo63 else MaxInt64
    else 0
  }

  /** Digits followed by a non-digit (or nothing) are the digit run. */
  lemma {:induction false} DigitRunBeforeNonDigit(d: string, rest: string)
    requires AllDigits(d) && (rest == [] || !IsDigit(rest[0]))
    ensures DigitRun(d + rest) == d
  {
    if d != [] {
      assert (d + rest)[1..] == d[1..] + rest;
      DigitRunBeforeNonDigit(d[1..], rest);
    } else {
      assert d + rest == rest;
    }
  }

  /** A sign and digits give their value, clamped to the int64 range. */
  lemma AtoiOfNumber(s: string)
    requires Unsigned(s) != [] && AllDigits(Unsigned(s))
    ensures var v := if s[0] == '-' then -(DecimalValue(Unsigned(s)) as int) else DecimalValue(Unsigned(s)) as int;
      Atoi(s) == if v > MaxInt64 then MaxInt64 else if v < -TwoTo63 then -TwoTo63 else v
  {
    DigitRunOfDigits(Unsigned(s));
  }

  /** A run of digits past math.MaxUint64 gives math.MaxInt64, or math.MinInt64
      after a '-', whatever follows it. */
  lemma AtoiOverflow(s: string)
    requires DecimalValue(DigitRun(Unsigned(s))) >= TwoTo64
    ensures Atoi(s) == if s[0] == '-' then -TwoTo63 else MaxInt64
  {
    if AllDigits(Unsigned(s)) {
      DigitRunOfDigits(Unsigned(s));
    }
  }

  /** Text that is not a sign and digits gives 0 unless its leading digits
      already overflow. */
  lemma AtoiNotANumber(s: string)
    requires Unsigned(s) == [] || !AllDigits(Unsigned(s))
    requires DecimalValue(DigitRun(Unsigned(s))) < TwoTo64
    ensures Atoi(s) == 0
  {
    var digits := Unsigned(s);
    var run := DigitRun(digits);
    if digits != [] {
      assert run != digits;
    }
  }

  /** Parsing what Itoa printed gives the number back. */
  lemma AtoiOfItoa(n: int64)
    ensures Atoi(Itoa(n)) == n
  {
    if n < 0 {
      var m: nat := -(n as int);
      assert Unsigned(Itoa(n)) == Digits(m);
      DecimalValueOfDigits(m);
    } else {
      DecimalValueOfDigits(n);
    }
    AtoiOfNumber(Itoa(n));
  }

  /** strings.LastIndex(s, string(c)): the position of the last c in s, or -1. */
  function LastIndex(s: string, c: char): (r: int)
    ensures -1 <= r < |s|
    ensures r == -1 <==> c !in s
    ensures 0 <= r ==> s[r] == c && c !in s[r + 1..]
  {
    if s == [] then -1
    else if s[|s| - 1] == c then |s| - 1
    else
      var r := LastIndex(s[..|s| - 1], c);
      assert s == s[..|s| - 1] + [s[|s| - 1]];
      assert 0 <= r ==> s[r + 1..] == s[..|s| - 1][r + 1..] + [s[|s| - 1]];
      r
  }

  /** getFileID: the number after the last '.' of a file name (the whole name
      when it has no '.'), or 0 when that text is not a number. */
  function GetFileID(file: string): int64
  {
    Atoi(IdText(file))
  }

  /** The text after the last '.' of a file name, or the whole name. */
  function IdText(file: string): string
  {
    file[LastIndex(file, '.') + 1..]
  }

  /** Without a '.', getFileID parses the whole name. */
  lemma GetFileIDWithoutDot(file: string)
    requires '.' !in file
    ensures GetFileID(file) == Atoi(file)
  {
    assert file[0..] == file;
  }

  /** When the text after the last '.' is not a sign and digits, getFileID
      gives 0, unless its leading digits pass math.MaxUint64. */
  lemma GetFileIDNotANumber(file: string)
    requires var digits := Unsigned(IdText(file));
             (digits == [] || !AllDigits(digits)) && DecimalValue(DigitRun(digits)) < TwoTo64
    ensures GetFileID(file) == 0
  {
    AtoiNotANumber(IdText(file));
  }

  /** When the digits after the last '.' pass math.MaxUint64, getFileID gives
      math.MaxInt64 (math.MinInt64 after a '-'), whatever follows them. */
  lemma GetFileIDOverflow(file: string)
    requires DecimalValue(DigitRun(Unsigned(IdText(file)))) >= TwoTo64
    ensures GetFileID(file) == if IdText(file)[0] == '-' then -TwoTo63 else MaxInt64
  {
    AtoiOverflow(IdText(file));
  }

  /** Twenty nines pass math.MaxUint64, and a "z" after them ends their run. */
  lemma TwentyNines()
    ensures var nines := seq(20, _ => '9');
      AllDigits(nines) && DecimalValue(nines) >= TwoTo64 && DigitRun(nines + "z") == nines
  {
    var nines := seq(20, _ => '9');
    NinesValue(20);
    assert Pow10(10) == 10000000000;
    Pow10Add(10, 10);
    DigitRunBeforeNonDigit(nines, "z");
  }

  /** Twenty nines followed by "z" do not make getFileID give 0: the digits
      overflow first, so the id is math.MaxInt64, and Atoi of the same text
      after a '-' is math.MinInt64. */
  lemma GetFileIDOverflowExample()
    ensures GetFileID("a." + seq(20, _ => '9') + "z") == MaxInt64
    ensures Atoi("-" + seq(20, _ => '9') + "z") == -TwoTo63
  {
    var nines := seq(20, _ => '9');
    var file := "a." + nines + "z";
    TwentyNines();
    LastIndexPastSuffix("a.", nines + "z", '.');
    assert file == "a." + (nines + "z");
    assert IdText(file) == nines + "z";
    GetFileIDOverflow(file);
    assert Unsigned("-" + nines + "z") == nines + "z";
    AtoiOverflow("-" + nines + "z");
  }

  /** A name made of any prefix ending in '.' and a formatted id gives that id
      back: this is why every data-file and hint-file name identifies its id. */
  lemma GetFileIDOfName(prefix: string, id: int64)
    requires |prefix| > 0 && prefix[|prefix| - 1] == '.'
    ensures GetFileID(prefix + Itoa(id)) == id
  {
    var name := prefix + Itoa(id);
    LastIndexPastSuffix(prefix, Itoa(id), '.');
    assert name[|prefix|..] == Itoa(id);
    AtoiOfItoa(id);
  }

  lemma {:induction false} LastIndexPastSuffix(prefix: string, suffix: string, c: char)
    requires |prefix| > 0 && prefix[|prefix| - 1] == c && c !in suffix
    ensures LastIndex(prefix + suffix, c) == |prefix| - 1
  {
    if suffix != [] {
      var s := prefix + suffix;
      assert s[..|s| - 1] == prefix + suffix[..|suffix| - 1];
      assert s[|s| - 1] == suffix[|suffix| - 1];
      LastIndexPastSuffix(prefix, suffix[..|suffix| - 1], c);
    } else {
      assert prefix + suffix == prefix;
    }
  }

  /** strings.TrimPrefix(s, prefix). */
  function TrimPrefix(s: string, prefix: string): (r: string)
    ensures prefix <= s ==> prefix + r == s
    ensures !(prefix <= s) ==> r == s
  {
    if prefix <= s then s[|prefix|..] else s
  }

  /** getOriginFileName: the file name relative to dir when dir is a prefix of
      it, the name unchanged otherwise. */
  function GetOriginFileName(dir: string, file: string): (r: string)
    ensures dir <= file ==> dir + r == file
    ensures !(dir <= file) ==> r == file
  {
    TrimPrefix(file, dir)
  }

  /** strings.Replace(s, pattern, replacement, -1): every non-overlapping occurrence of pattern,
      scanning left to right, replaced by replacement. */
  function ReplaceAll(s: string, pattern: string, replacement: string): string
    requires |pattern| > 0
    decreases |s|
  {
    if |s| < |pattern| then s
    else if s[..|pattern|] == pattern then replacement + ReplaceAll(s[|pattern|..], pattern, replacement)
    else [s[0]] + ReplaceAll(s[1..], pattern, replacement)
  }

  /** Replacing in text whose prefix cannot start an occurrence (none of its
      characters is the first one of pattern) only replaces in the rest. */
  lemma {:induction false} ReplaceAllAfter(prefix: string, s: string, pattern: string, replacement: string)
    requires |pattern| > 0 && pattern[0] !in prefix
    ensures ReplaceAll(prefix + s, pattern, replacement) == prefix + ReplaceAll(s, pattern, replacement)
    decreases |prefix|
  {
    if prefix != [] {
      var t := prefix + s;
      assert t[0] == prefix[0] && t[1..] == prefix[1..] + s;
      if |t| >= |pattern| {
        assert t[..|pattern|][0] != pattern[0];
      }
      ReplaceAllAfter(prefix[1..], s, pattern, replacement);
      assert [prefix[0]] + prefix[1..] == prefix;
    } else {
      assert prefix + s == s;
    }
  }

  /** path.Join(dir, name), for a clean directory path and a clean relative or
      rooted name: an empty element is dropped, and exactly one '/' separates
      the two. */
  function Join(dir: string, name: string): string
  {
    if name == [] then dir
    else if dir == [] then name
    else if name[0] == '/' then dir + name
    else dir + "/" + name
  }

  /** The id of a file name after adding delta to it (int64 arithmetic, so it
      wraps), formatted in decimal. */
  function RenumberedId(file: string, delta: int64): string
  {
    Itoa(ToInt64(GetFileID(file) + delta))
  }

  /** The file name with every occurrence of its id's decimal text replaced by
      that of id + delta. */
  function Renumber(file: string, delta: int64): string
  {
    ReplaceAll(file, Itoa(GetFileID(file)), RenumberedId(file, delta))
  }

  /** getNewFileName: the name of `filename` relative to oldDir, renumbered by
      delta and joined under newDir. */
  function GetNewFileName(oldDir: string, newDir: string, filename: string, delta: int64): string
  {
    Join(newDir, Renumber(GetOriginFileName(oldDir, filename), delta))
  }

  /** No character that can start a formatted id (a digit or '-'). */
  predicate NoIdStart(s: string)
  {
    forall i :: 0 <= i < |s| ==> !IsDigit(s[i]) && s[i] != '-'
  }

  /** Replacing the text that ends a string, when nothing before it can start
      an occurrence, replaces exactly that ending. */
  lemma ReplaceAllOfEnding(prefix: string, text: string, replacement: string)
    requires |text| > 0 && text[0] !in prefix
    ensures ReplaceAll(prefix + text, text, replacement) == prefix + replacement
  {
    ReplaceAllAfter(prefix, text, text, replacement);
    assert text[..|text|] == text && text[|text|..] == [];
    assert ReplaceAll(text, text, replacement) == replacement + ReplaceAll([], text, replacement);
  }

  /** Renumbering `prefix + id`, where the prefix ends in '.' and holds no digit
      and no '-', gives `prefix + (id + delta)`. */
  lemma RenumberOfName(prefix: string, id: int64, delta: int64)
    requires |prefix| > 0 && prefix[|prefix| - 1] == '.' && NoIdStart(prefix)
    ensures Renumber(prefix + Itoa(id), delta) == prefix + Itoa(ToInt64(id + delta))
  {
    var file := prefix + Itoa(id);
    GetFileIDOfName(prefix, id);
    assert Itoa(id)[0] !in prefix by {
      assert NoIdStart(prefix);
    }
    assert RenumberedId(file, delta) == Itoa(ToInt64(id + delta));
    ReplaceAllOfEnding(prefix, Itoa(id), Itoa(ToInt64(id + delta)));
  }

  /** Renumbering a file `prefix + id` that lives in oldDir moves it to newDir
      as `prefix + (id + delta)`, when the prefix ends in '.' and holds no digit
      and no '-' (true of "bitcask.data." and "bitcask.hint."). */
  lemma GetNewFileNameRenumbers(oldDir: string, newDir: string, prefix: string, id: int64, delta: int64)
    requires oldDir != [] && newDir != []
    requires |prefix| > 0 && prefix[0] != '/' && prefix[|prefix| - 1] == '.' && NoIdStart(prefix)
    ensures GetNewFileName(oldDir, newDir, Join(oldDir, prefix + Itoa(id)), delta)
         == Join(newDir, prefix + Itoa(ToInt64(id + delta)))
  {
    var rooted, renamed := "/" + prefix, Itoa(ToInt64(id + delta));
    var file := rooted + Itoa(id);
    assert GetOriginFileName(oldDir, Join(oldDir, prefix + Itoa(id))) == file by {
      OriginOfJoin(oldDir, prefix + Itoa(id));
      SlashAssoc(prefix, Itoa(id));
    }
    assert Renumber(file, delta) == "/" + (prefix + renamed) by {
      assert NoIdStart(rooted);
      RenumberOfName(rooted, id, delta);
      SlashAssoc(prefix, renamed);
    }
    GetNewFileNameOfOrigin(oldDir, newDir, Join(oldDir, prefix + Itoa(id)), delta, file);
    JoinRooted(newDir, prefix + renamed);
  }

  lemma SlashAssoc(a: string, b: string)
    ensures ("/" + a) + b == "/" + (a + b)
  {
  }

  lemma GetNewFileNameOfOrigin(oldDir: string, newDir: string, full: string, delta: int64, file: string)
    requires GetOriginFileName(oldDir, full) == file
    ensures GetNewFileName(oldDir, newDir, full, delta) == Join(newDir, Renumber(file, delta))
  {
  }

  /** A relative name joined under a directory and then taken relative to that
      directory again keeps the separating '/'. */
  lemma OriginOfJoin(dir: string, name: string)
    requires dir != [] && name != [] && name[0] != '/'
    ensures GetOriginFileName(dir, Join(dir, name)) == "/" + name
  {
    assert Join(dir, name) == dir + ("/" + name);
  }

  /** Joining a rooted name and the same name relative give the same path. */
  lemma JoinRooted(dir: string, name: string)
    requires dir != [] && name != [] && name[0] != '/'
    ensures Join(dir, "/" + name) == Join(dir, name)
  {
    assert dir + "/" + name == dir + ("/" + name);
  }

  /** The renaming the engine's tests print: data file 0 of the merge directory
      becomes data file 3 of the live directory. */
  lemma GetNewFileNameExample()
    ensures GetNewFileName("/tmp/bitcask/tmp_db", "/tmp/bitcask", "/tmp/bitcask/tmp_db/bitcask.data.0", 3)
         == "/tmp/bitcask" + "/" + "bitcask.data.3"
  {
    var prefix := "bitcask.data.";
    assert "/tmp/bitcask/tmp_db/bitcask.data.0" == Join("/tmp/bitcask/tmp_db", prefix + Itoa(0)) by {
      assert Itoa(0) == "0";
    }
    assert NoIdStart(prefix);
    GetNewFileNameRenumbers("/tmp/bitcask/tmp_db", "/tmp/bitcask", prefix, 0, 3);
    assert ToInt64(0 + 3) == 3;
    assert Join("/tmp/bitcask", prefix + Itoa(3)) == "/tmp/bitcask" + "/" + "bitcask.data.3" by {
      assert Itoa(3) == "3";
    }
  }
}
