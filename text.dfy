/**
 * The Rust string operations the core relies on, written out over `seq<char>`:
 * `str::split(char)`, `str::trim_start_matches(&str)`, `str::starts_with`,
 * `str::lines`, `str::replace`, ASCII `to_lowercase`, and `str::parse` for
 * `u32` and `u64`.
 */
module Text {
  import opened Prelude

  predicate StartsWith(s: string, prefix: string) {
    |prefix| <= |s| && s[..|prefix|] == prefix
  }

  /** Index of the first `c` in `s`, or `|s|` when `s` holds none. */
  function FirstIndex(s: string, c: char): (i: nat)
    ensures i <= |s|
    ensures i < |s| ==> s[i] == c
    ensures forall j :: 0 <= j < i ==> s[j] != c
    decreases |s|
  {
    if s == [] || s[0] == c then 0 else 1 + FirstIndex(s[1..], c)
  }

  lemma FirstIndexAbsent(s: string, c: char)
    requires c !in s
    ensures FirstIndex(s, c) == |s|
  {
  }

  lemma FirstIndexAfter(a: string, c: char, b: string)
    requires c !in a
    ensures FirstIndex(a + [c] + b, c) == |a|
  {
    var s := a + [c] + b;
    assert s[|a|] == c;
    assert forall j :: 0 <= j < |a| ==> s[j] == a[j];
  }

  // ---------------------------------------------------------------------------
  // str::split(sep): every separator ends a token, so a doubled separator
  // yields an empty token and the empty string yields one empty token.

  function Split(s: string, sep: char): (parts: seq<string>)
    ensures |parts| >= 1
    ensures forall k :: 0 <= k < |parts| ==> sep !in parts[k]
    decreases |s|
  {
    var i := FirstIndex(s, sep);
    if i == |s| then [s] else [s[..i]] + Split(s[i + 1..], sep)
  }

  /** The inverse of `Split`: the tokens with one separator between neighbours. */
  function Join(parts: seq<string>, sep: char): string
    requires |parts| >= 1
    decreases |parts|
  {
    if |parts| == 1 then parts[0] else parts[0] + [sep] + Join(parts[1..], sep)
  }

  lemma {:induction false} JoinSplit(s: string, sep: char)
    ensures Join(Split(s, sep), sep) == s
    decreases |s|
  {
    var i := FirstIndex(s, sep);
    if i < |s| {
      var rest := s[i + 1..];
      var parts := Split(s, sep);
      assert parts == [s[..i]] + Split(rest, sep);
      assert parts[0] == s[..i] && parts[1..] == Split(rest, sep);
      JoinSplit(rest, sep);
      assert Join(parts, sep) == s[..i] + [sep] + rest;
      assert s == s[..i] + [sep] + rest;
    }
  }

  /** A separator-free token followed by a separator is the first token of the split. */
  lemma SplitAtFirstSeparator(a: string, sep: char, b: string)
    requires sep !in a
    ensures Split(a + [sep] + b, sep) == [a] + Split(b, sep)
  {
    var s := a + [sep] + b;
    FirstIndexAfter(a, sep, b);
    assert s[..|a|] == a;
    assert s[|a| + 1..] == b;
  }

  lemma {:induction false} SplitJoin(parts: seq<string>, sep: char)
    requires |parts| >= 1
    requires forall k :: 0 <= k < |parts| ==> sep !in parts[k]
    ensures Split(Join(parts, sep), sep) == parts
    decreases |parts|
  {
    if |parts| == 1 {
      FirstIndexAbsent(parts[0], sep);
    } else {
      var tail := parts[1..];
      assert Join(parts, sep) == parts[0] + [sep] + Join(tail, sep);
      assert sep !in parts[0];
      SplitAtFirstSeparator(parts[0], sep, Join(tail, sep));
      assert forall k :: 0 <= k < |tail| ==> tail[k] == parts[k + 1];
      SplitJoin(tail, sep);
      assert parts == [parts[0]] + tail;
    }
  }

  lemma {:induction false} JoinAppend(xs: seq<string>, ys: seq<string>, sep: char)
    requires |xs| >= 1 && |ys| >= 1
    ensures Join(xs + ys, sep) == Join(xs, sep) + [sep] + Join(ys, sep)
    decreases |xs|
  {
    if |xs| == 1 {
      assert (xs + ys)[1..] == ys;
    } else {
      assert (xs + ys)[1..] == xs[1..] + ys;
      JoinAppend(xs[1..], ys, sep);
    }
  }

  /** Splitting at an added separator splits each side on its own. */
  lemma SplitAppend(a: string, b: string, sep: char)
    ensures Split(a + [sep] + b, sep) == Split(a, sep) + Split(b, sep)
  {
    var xs, ys := Split(a, sep), Split(b, sep);
    JoinSplit(a, sep);
    JoinSplit(b, sep);
    JoinAppend(xs, ys, sep);
    SplitJoin(xs + ys, sep);
  }

  // ---------------------------------------------------------------------------
  // str::trim_start_matches(prefix): removes every leading copy of prefix.

  function TrimPrefixes(s: string, prefix: string): (r: string)
    requires |prefix| > 0
    ensures |r| <= |s|
    ensures !StartsWith(r, prefix)
    decreases |s|
  {
    if StartsWith(s, prefix) then TrimPrefixes(s[|prefix|..], prefix) else s
  }

  /** What is left is a suffix of the input. */
  lemma {:induction false} TrimmedIsSuffix(s: string, prefix: string)
    requires |prefix| > 0
    ensures var r := TrimPrefixes(s, prefix); r == s[|s| - |r|..]
    decreases |s|
  {
    if StartsWith(s, prefix) {
      TrimmedIsSuffix(s[|prefix|..], prefix);
    }
  }

  function Repeat(p: string, n: nat): string {
    if n == 0 then [] else p + Repeat(p, n - 1)
  }

  /** Any number of leading copies, none included, is removed and nothing more. */
  lemma {:induction false} TrimRepeatedPrefix(p: string, n: nat, s: string)
    requires |p| > 0 && !StartsWith(s, p)
    ensures TrimPrefixes(Repeat(p, n) + s, p) == s
  {
    if n == 0 {
      NoRepeatTrimmed(p, s);
    } else {
      TrimRepeatedPrefix(p, n - 1, s);
      OneMoreRepeatTrimmed(p, n, s);
    }
  }

  lemma NoRepeatTrimmed(p: string, s: string)
    requires |p| > 0 && !StartsWith(s, p)
    ensures TrimPrefixes(Repeat(p, 0) + s, p) == s
  {
    assert Repeat(p, 0) + s == s;
  }

  lemma OneMoreRepeatTrimmed(p: string, n: nat, s: string)
    requires |p| > 0 && n > 0
    requires TrimPrefixes(Repeat(p, n - 1) + s, p) == s
    ensures TrimPrefixes(Repeat(p, n) + s, p) == s
  {
    assert Repeat(p, n) + s == p + (Repeat(p, n - 1) + s);
    TrimOnePrefix(p, Repeat(p, n - 1) + s);
  }

  lemma TrimOnePrefix(p: string, t: string)
    requires |p| > 0
    ensures TrimPrefixes(p + t, p) == TrimPrefixes(t, p)
  {
    assert (p + t)[..|p|] == p;
    assert (p + t)[|p|..] == t;
  }

  /** Text appended after a character foreign to the prefix cannot be trimmed. */
  lemma {:induction false} TrimPrefixesAppend(s: string, p: string, t: string)
    requires |p| > 0 && |t| > 0 && t[0] !in p
    ensures TrimPrefixes(s + t, p) == TrimPrefixes(s, p) + t
    decreases |s|
  {
    if StartsWith(s, p) {
      assert (s + t)[..|p|] == s[..|p|];
      assert (s + t)[|p|..] == s[|p|..] + t;
      TrimPrefixesAppend(s[|p|..], p, t);
    } else if |p| <= |s| {
      assert (s + t)[..|p|] == s[..|p|];
    } else if |p| <= |s + t| {
      assert (s + t)[..|p|][|s|] == t[0];
      assert p[|s|] in p;
    }
  }

  // ---------------------------------------------------------------------------
  // ASCII case folding, as `to_lowercase` behaves on the keywords compared here.

  function LowerChar(c: char): char {
    if 'A' <= c <= 'Z' then (c as int + 32) as char else c
  }

  function ToLower(s: string): string {
    seq(|s|, i requires 0 <= i < |s| => LowerChar(s[i]))
  }

  /** Case-insensitive equality, stated character by character. */
  predicate EqualsIgnoringCase(a: string, b: string) {
    |a| == |b| && forall i :: 0 <= i < |a| ==> LowerChar(a[i]) == LowerChar(b[i])
  }

  /** Lowering and comparing with a lower-case word is case-insensitive equality. */
  lemma ToLowerMatches(token: string, word: string)
    requires forall i :: 0 <= i < |word| ==> LowerChar(word[i]) == word[i]
    ensures ToLower(token) == word <==> EqualsIgnoringCase(token, word)
  {
    if EqualsIgnoringCase(token, word) {
      assert forall i :: 0 <= i < |word| ==> ToLower(token)[i] == word[i];
    }
  }

  // ---------------------------------------------------------------------------
  // str::parse::<u32> / ::<u64>: an optional '+', then at least one ASCII
  // digit, and a value below the type's limit.

  predicate IsDigit(c: char) {
    '0' <= c <= '9'
  }

  predicate AllDigits(s: string) {
    forall i :: 0 <= i < |s| ==> IsDigit(s[i])
  }

  function DecimalValue(digits: string): nat
    requires AllDigits(digits)
    decreases |digits|
  {
    if digits == [] then 0
    else 10 * DecimalValue(digits[..|digits| - 1]) + (digits[|digits| - 1] as int - '0' as int)
  }

  /** The text an unsigned `parse` reads as a number: an optional `+`, then one or more digits. */
  predicate UnsignedNumeral(s: string) {
    |s| > 0 && (AllDigits(s) || (s[0] == '+' && |s| > 1 && AllDigits(s[1..])))
  }

  /** The digits of a numeral, without its sign. */
  function NumeralDigits(s: string): (digits: string)
    requires UnsignedNumeral(s)
    ensures |digits| > 0 && AllDigits(digits)
  {
    if s[0] == '+' then s[1..] else s
  }

  function ParseUnsigned(s: string, limit: nat): (r: Option<nat>)
    ensures r.Some? <==> UnsignedNumeral(s) && DecimalValue(NumeralDigits(s)) < limit
    ensures r.Some? ==> r.value == DecimalValue(NumeralDigits(s)) && r.value < limit
    ensures |s| > 0 && AllDigits(s) ==>
              r == if DecimalValue(s) < limit then Some(DecimalValue(s)) else None
    ensures |s| > 1 && s[0] == '+' && AllDigits(s[1..]) ==>
              r == if DecimalValue(s[1..]) < limit then Some(DecimalValue(s[1..])) else None
  {
    var digits := if |s| > 0 && s[0] == '+' then s[1..] else s;
    if |digits| > 0 && AllDigits(digits) && DecimalValue(digits) < limit
    then Some(DecimalValue(digits))
    else None
  }

  /** `str::parse::<u32>`: a numeral whose value is below 2^32. */
  function ParseU32(s: string): (r: Option<uint32>)
    ensures r.Some? <==> UnsignedNumeral(s) && DecimalValue(NumeralDigits(s)) < U32Limit
    ensures r.Some? ==> r.value == DecimalValue(NumeralDigits(s))
  {
    match ParseUnsigned(s, U32Limit)
    case None => None
    case Some(n) => Some(n)
  }

  /** `str::parse::<u64>`: a numeral whose value is below 2^64. */
  function ParseU64(s: string): (r: Option<uint64>)
    ensures r.Some? <==> UnsignedNumeral(s) && DecimalValue(NumeralDigits(s)) < U64Limit
    ensures r.Some? ==> r.value == DecimalValue(NumeralDigits(s))
  {
    match ParseUnsigned(s, U64Limit)
    case None => None
    case Some(n) => Some(n)
  }

  /** Canonical decimal text of `n`, as Rust's `Display` for integers writes it. */
  function Decimal(n: nat): (s: string)
    ensures |s| > 0 && AllDigits(s) && DecimalValue(s) == n
    decreases n
  {
    if n < 10 then [('0' as int + n) as char]
    else Decimal(n / 10) + [('0' as int + n % 10) as char]
  }

  /** Parsing canonical decimal text gives back the number, within the limit. */
  lemma ParseDecimal(n: nat, limit: nat)
    requires n < limit
    ensures ParseUnsigned(Decimal(n), limit) == Some(n)
    ensures ' ' !in Decimal(n)
  {
    assert !IsDigit(' ');
  }

  // ---------------------------------------------------------------------------
  // str::lines: split after each '\n', drop the '\n' and then one '\r' before
  // it; a final line ending adds no empty line.

  function StripLineEnding(line: string): string {
    if |line| > 0 && line[|line| - 1] == '\r' then line[..|line| - 1] else line
  }

  function Lines(s: string): (lines: seq<string>)
    ensures forall k :: 0 <= k < |lines| ==> '\n' !in lines[k]
    decreases |s|
  {
    if s == [] then []
    else
      var i := FirstIndex(s, '\n');
      if i == |s| then [s] else [StripLineEnding(s[..i])] + Lines(s[i + 1..])
  }

  /** Text with every line terminated by CRLF, as SDP writes it. */
  function CrlfText(lines: seq<string>): string
    decreases |lines|
  {
    if lines == [] then [] else lines[0] + "\r\n" + CrlfText(lines[1..])
  }

  lemma {:induction false} LinesOfCrlfText(lines: seq<string>)
    requires forall k :: 0 <= k < |lines| ==> '\n' !in lines[k]
    ensures Lines(CrlfText(lines)) == lines
    decreases |lines|
  {
    if lines != [] {
      var l, rest := lines[0], CrlfText(lines[1..]);
      var s := CrlfText(lines);
      assert s == (l + ['\r']) + ['\n'] + rest;
      FirstIndexAfter(l + ['\r'], '\n', rest);
      assert s[..|l| + 1] == l + ['\r'];
      assert (l + ['\r'])[..|l|] == l;
      assert s[|l| + 2..] == rest;
      LinesOfCrlfText(lines[1..]);
      assert lines == [l] + lines[1..];
    }
  }

  // ---------------------------------------------------------------------------
  // str::replace(from, to): non-overlapping occurrences, left to right.

  function Replace(s: string, from: string, to: string): string
    requires |from| > 0
    decreases |s|
  {
    if |s| < |from| then s
    else if s[..|from|] == from then to + Replace(s[|from|..], from, to)
    else [s[0]] + Replace(s[1..], from, to)
  }
}
