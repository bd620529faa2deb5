/**
 * The parts of Go's `strings`, `strconv` and `fmt` packages that the codec
 * relies on, stated over strings as sequences of runes:
 * `strings.Split`, `strings.SplitN(s, ",", 2)`, `strings.TrimRight(s, " ")`,
 * `strings.Replace(s, old, new, 1)`, `strconv.Atoi`, `strconv.ParseInt`,
 * `strconv.ParseUint`, `strconv.ParseBool`, and the formats `%0Nv`
 * (integers) and `%-Ns` (text), whose width `N` the codec writes into the
 * format string, as `fmt` reads them.
 */
module GoText {
  import opened Wrappers

  const MinInt64: int := -0x8000_0000_0000_0000
  const MaxInt64: int := 0x7FFF_FFFF_FFFF_FFFF

  /** `n` copies of the rune `c`: the padding of zero-padded numbers and left-justified texts. */
  function Repeat(c: char, n: nat): (r: string)
    ensures |r| == n && forall k :: 0 <= k < n ==> r[k] == c
  {
    seq(n, _ => c)
  }

  function Max(a: int, b: int): int { if a < b then b else a }

  // ---------------------------------------------------------------------
  // Searching and splitting

  /** Position of the first `c` in `s`, or `|s|` when there is none. */
  function IndexOf(s: string, c: char): (r: nat)
    ensures r <= |s|
    ensures forall j :: 0 <= j < r ==> s[j] != c
    ensures r < |s| ==> s[r] == c
    ensures r == |s| <==> c !in s
  {
    if s == [] then 0
    else if s[0] == c then 0
    else 1 + IndexOf(s[1..], c)
  }

  /**
   * `strings.SplitN(s, [c], 2)` read as (first segment, rest): the text
   * before the first `c`, and the text after it ("" when there is no `c`).
   */
  function CutAt(s: string, c: char): (r: (string, string))
    ensures c !in r.0
    ensures c in s ==> s == r.0 + [c] + r.1
    ensures c !in s ==> r.0 == s && r.1 == ""
  {
    var k := IndexOf(s, c);
    if k == |s| then (s, "") else (s[..k], s[k + 1..])
  }

  /** Cutting at a rune absent from `a` splits `a + [c] + b` into `a` and `b`. */
  lemma CutAtFirst(a: string, c: char, b: string)
    requires c !in a
    ensures CutAt(a + [c] + b, c) == (a, b)
  {
    var s := a + [c] + b;
    assert s[|a|] == c;
    assert forall j :: 0 <= j < |a| ==> s[j] == a[j] && a[j] != c;
    assert IndexOf(s, c) == |a|;
    assert s[..|a|] == a && s[|a| + 1..] == b;
  }

  /** `sep` occurs in `s` starting at position `j`. */
  predicate OccursAt(s: string, sep: string, j: int)
  {
    0 <= j && j + |sep| <= |s| && s[j..j + |sep|] == sep
  }

  /** The first position at or after `from` where `sep` occurs in `s`. */
  function FindFrom(s: string, sep: string, from: nat): (r: Option<nat>)
    requires |sep| > 0
    ensures r.Some? ==> from <= r.value && OccursAt(s, sep, r.value)
    ensures r.Some? ==> forall j :: from <= j < r.value ==> !OccursAt(s, sep, j)
    ensures r.None? ==> forall j :: from <= j ==> !OccursAt(s, sep, j)
    decreases |s| - from
  {
    if from + |sep| > |s| then None
    else if s[from..from + |sep|] == sep then Some(from)
    else FindFrom(s, sep, from + 1)
  }

  /**
   * `strings.Split(s, sep)`: the texts between successive non-overlapping
   * occurrences of `sep`, scanning from the left; with an empty `sep`, one
   * part per rune (and no part at all for the empty string).
   */
  function Split(s: string, sep: string): (parts: seq<string>)
    ensures |sep| > 0 ==> |parts| >= 1
    decreases |s|
  {
    if |sep| == 0 then seq(|s|, k requires 0 <= k < |s| => [s[k]])
    else match FindFrom(s, sep, 0)
      case None => [s]
      case Some(i) => [s[..i]] + Split(s[i + |sep|..], sep)
  }

  /** `strings.Join(parts, sep)`. */
  function Join(parts: seq<string>, sep: string): string
  {
    if |parts| == 0 then ""
    else if |parts| == 1 then parts[0]
    else parts[0] + sep + Join(parts[1..], sep)
  }

  /** Joining the parts of a split with the separator gives back the text. */
  lemma SplitJoin(s: string, sep: string)
    ensures Join(Split(s, sep), sep) == s
  {
    if |sep| == 0 {
      SplitJoinRunes(s, sep);
    } else {
      SplitJoinSeparated(s, sep);
    }
  }

  lemma {:induction false} SplitJoinRunes(s: string, sep: string)
    requires |sep| == 0
    ensures Join(Split(s, sep), sep) == s
    decreases |s|
  {
    if |s| > 0 {
      var parts := Split(s, sep);
      assert parts == [[s[0]]] + Split(s[1..], sep);
      SplitJoinRunes(s[1..], sep);
      if |s| == 1 {
        assert Join(parts, sep) == [s[0]] == s;
      } else {
        assert Join(parts, sep) == [s[0]] + Join(Split(s[1..], sep), sep);
        assert s == [s[0]] + s[1..];
      }
    }
  }

  lemma {:induction false} SplitJoinSeparated(s: string, sep: string)
    requires |sep| > 0
    ensures Join(Split(s, sep), sep) == s
    decreases |s|
  {
    match FindFrom(s, sep, 0)
    case None =>
    case Some(i) =>
      var rest := s[i + |sep|..];
      SplitJoinSeparated(rest, sep);
      JoinCons(s[..i], Split(rest, sep), sep);
      CutAround(s, i, sep);
  }

  /** Joining a part in front of at least one more puts the separator between them. */
  lemma JoinCons(head: string, tail: seq<string>, sep: string)
    requires |tail| >= 1
    ensures Join([head] + tail, sep) == head + sep + Join(tail, sep)
  {
    assert ([head] + tail)[1..] == tail;
  }

  /** A text is what comes before an occurrence of `sep`, `sep`, and what comes after. */
  lemma CutAround(s: string, i: nat, sep: string)
    requires OccursAt(s, sep, i)
    ensures s == s[..i] + sep + s[i + |sep|..]
  {
    assert s == s[..i] + s[i..i + |sep|] + s[i + |sep|..];
  }

  /** No part of a split with a non-empty separator contains the separator. */
  lemma {:induction false} SplitPartsAreFree(s: string, sep: string, p: nat, j: int)
    requires |sep| > 0 && p < |Split(s, sep)|
    ensures !OccursAt(Split(s, sep)[p], sep, j)
    decreases |s|
  {
    var found := FindFrom(s, sep, 0);
    if found.Some? {
      var i := found.value;
      var rest := s[i + |sep|..];
      assert Split(s, sep) == [s[..i]] + Split(rest, sep);
      if p == 0 {
        PrefixBeforeFirstIsFree(s, sep, i, j);
      } else {
        SplitPartsAreFree(rest, sep, p - 1, j);
      }
    }
  }

  lemma PrefixBeforeFirstIsFree(s: string, sep: string, i: nat, j: int)
    requires |sep| > 0 && i <= |s|
    requires forall k :: 0 <= k < i ==> !OccursAt(s, sep, k)
    ensures !OccursAt(s[..i], sep, j)
  {
    if OccursAt(s[..i], sep, j) {
      assert s[..i][j..j + |sep|] == s[j..j + |sep|];
      assert OccursAt(s, sep, j);
    }
  }

  /** A text without the separator rune splits into itself alone. */
  lemma SplitWithoutRune(s: string, c: char)
    requires c !in s
    ensures Split(s, [c]) == [s]
  {
    forall j | 0 <= j < |s| ensures !OccursAt(s, [c], j) {
      assert s[j] in s;
      assert s[j..j + 1] == [s[j]];
    }
    assert FindFrom(s, [c], 0).None?;
  }

  /** Splitting on a rune cuts at its first occurrence and goes on with the rest. */
  lemma SplitAtFirstRune(a: string, c: char, b: string)
    requires c !in a
    ensures Split(a + [c] + b, [c]) == [a] + Split(b, [c])
  {
    var s := a + [c] + b;
    assert s[|a|..|a| + 1] == [c];
    assert OccursAt(s, [c], |a|);
    forall j | 0 <= j < |a| ensures !OccursAt(s, [c], j) {
      assert s[j] == a[j] && a[j] in a;
      assert s[j..j + 1] == [s[j]];
    }
    assert FindFrom(s, [c], 0) == Some(|a|);
    assert s[..|a|] == a && s[|a| + 1..] == b;
  }

  /**
   * Splitting the join of parts that do not contain the separator rune
   * gives back the parts.
   */
  lemma {:induction false} JoinSplitRune(parts: seq<string>, c: char)
    requires |parts| >= 1
    requires forall k :: 0 <= k < |parts| ==> c !in parts[k]
    ensures Split(Join(parts, [c]), [c]) == parts
    decreases |parts|
  {
    if |parts| == 1 {
      SplitWithoutRune(parts[0], c);
    } else {
      var rest := parts[1..];
      JoinSplitRune(rest, c);
      assert Join(parts, [c]) == parts[0] + [c] + Join(rest, [c]);
      SplitAtFirstRune(parts[0], c, Join(rest, [c]));
      assert parts == [parts[0]] + rest;
    }
  }

  /** Splitting on one rune gives one more part than there are occurrences of it. */
  lemma {:induction false} SplitOnRuneCount(s: string, c: char)
    ensures |Split(s, [c])| == multiset(s)[c] + 1
    decreases |s|
  {
    var sep := [c];
    match FindFrom(s, sep, 0)
    case None =>
      RuneAbsentBefore(s, c, |s|);
      assert s[..|s|] == s;
    case Some(i) =>
      var rest := s[i + 1..];
      SplitOnRuneCount(rest, c);
      assert s[i..i + 1] == sep;
      RuneAbsentBefore(s, c, i);
      assert s == s[..i] + [s[i]] + rest;
      assert multiset(s) == multiset(s[..i]) + multiset{c} + multiset(rest);
  }

  /** A rune that does not occur at any position before `i` is not in the prefix of length `i`. */
  lemma RuneAbsentBefore(s: string, c: char, i: nat)
    requires i <= |s| && forall j :: 0 <= j < i ==> !OccursAt(s, [c], j)
    ensures c !in multiset(s[..i])
  {
    forall j | 0 <= j < i ensures s[..i][j] != c {
      assert !OccursAt(s, [c], j);
      assert s[j..j + 1] == [s[j]];
    }
  }

  // ---------------------------------------------------------------------
  // Trimming and replacing

  /** `strings.TrimRight(s, " ")`: `s` without its trailing spaces (other runes are kept). */
  function TrimRightSpaces(s: string): (r: string)
    ensures r <= s
    ensures forall k :: |r| <= k < |s| ==> s[k] == ' '
    ensures r == [] || r[|r| - 1] != ' '
  {
    if s == [] || s[|s| - 1] != ' ' then s
    else TrimRightSpaces(s[..|s| - 1])
  }

  /**
   * `strings.Replace(s, [a], [b], 1)`: the first `a` becomes `b`, every other
   * rune is kept.
   */
  function ReplaceFirst(s: string, a: char, b: char): (r: string)
    ensures |r| == |s|
    ensures forall k :: 0 <= k < |s| && k != IndexOf(s, a) ==> r[k] == s[k]
    ensures a in s ==> r[IndexOf(s, a)] == b
    ensures a !in s ==> r == s
  {
    var k := IndexOf(s, a);
    if k == |s| then s else s[..k] + [b] + s[k + 1..]
  }

  // ---------------------------------------------------------------------
  // Decimal digits

  predicate IsDigit(c: char) { '0' <= c <= '9' }

  predicate AllDigits(s: string) { forall k :: 0 <= k < |s| ==> IsDigit(s[k]) }

  function DigitChar(d: nat): (c: char)
    requires d < 10
    ensures IsDigit(c)
  {
    (d + '0' as int) as char
  }

  function DigitValue(c: char): (d: nat)
    requires IsDigit(c)
    ensures d < 10
  {
    c as int - '0' as int
  }

  /** The shortest decimal representation of `n`. */
  function Digits(n: nat): (r: string)
    ensures |r| >= 1 && AllDigits(r)
    decreases n
  {
    if n < 10 then [DigitChar(n)] else Digits(n / 10) + [DigitChar(n % 10)]
  }

  /** A rune that is not a digit does not occur in the digits of a number. */
  lemma DigitsWithout(n: nat, c: char)
    requires !IsDigit(c)
    ensures c !in Digits(n)
  {
    var d := Digits(n);
    assert forall k :: 0 <= k < |d| ==> d[k] != c;
  }

  /** The number a string of decimal digits denotes. */
  function Value(s: string): nat
    requires AllDigits(s)
  {
    if s == [] then 0 else 10 * Value(s[..|s| - 1]) + DigitValue(s[|s| - 1])
  }

  lemma {:induction false} ValueOfDigits(n: nat)
    ensures Value(Digits(n)) == n
    decreases n
  {
    if n >= 10 {
      ValueOfDigits(n / 10);
      var d := Digits(n);
      assert d[..|d| - 1] == Digits(n / 10);
    }
  }

  lemma {:induction false} LeadingZerosIgnored(z: nat, s: string)
    requires AllDigits(s)
    ensures AllDigits(Repeat('0', z) + s) && Value(Repeat('0', z) + s) == Value(s)
    decreases |s|
  {
    var t := Repeat('0', z) + s;
    if s == [] {
      assert t == Repeat('0', z);
      ZerosValue(z);
    } else {
      LeadingZerosIgnored(z, s[..|s| - 1]);
      assert t[..|t| - 1] == Repeat('0', z) + s[..|s| - 1];
    }
  }

  lemma {:induction false} ZerosValue(z: nat)
    ensures Value(Repeat('0', z)) == 0
    decreases z
  {
    if z > 0 {
      ZerosValue(z - 1);
      assert Repeat('0', z)[..z - 1] == Repeat('0', z - 1);
    }
  }

  /** There are more than `w` digits in `n` exactly when `n >= 10^w`. */
  lemma {:induction false} DigitsLength(n: nat, w: nat)
    requires n > 0
    ensures |Digits(n)| > w <==> n >= Power(10, w)
    decreases n
  {
    if n >= 10 {
      if w > 0 {
        DigitsLength(n / 10, w - 1);
        var p := Power(10, w - 1);
        assert Power(10, w) == 10 * p;
        assert n / 10 >= p <==> n >= 10 * p;
      }
    } else {
      PowerAtLeast(w);
    }
  }

  function Power(a: int, b: nat): int
  {
    if b == 0 then 1 else a * Power(a, b - 1)
  }

  lemma {:induction false} PowerPositive(a: nat, b: nat)
    requires a > 0
    ensures Power(a, b) > 0
  {
    if b > 0 { PowerPositive(a, b - 1); }
  }

  lemma {:induction false} PowerAtLeast(w: nat)
    ensures w > 0 ==> Power(10, w) >= 10
    ensures Power(10, w) >= 1
  {
    if w > 0 { PowerAtLeast(w - 1); }
  }

  lemma {:induction false} PowerMonotone(a: nat, j: nat, k: nat)
    requires a >= 1 && j <= k
    ensures 1 <= Power(a, j) <= Power(a, k)
    decreases k
  {
    PowerPositive(a, j);
    if j < k {
      PowerMonotone(a, j, k - 1);
    }
  }

  // ---------------------------------------------------------------------
  // strconv

  /**
   * The syntax `strconv.ParseInt(s, 10, _)` accepts: an optional sign
   * followed by at least one decimal digit; the value, unbounded.
   */
  function ParseDecimal(s: string): Option<int>
  {
    if |s| > 0 && (s[0] == '+' || s[0] == '-') then
      var body := s[1..];
      if |body| > 0 && AllDigits(body) then
        var v: int := if s[0] == '-' then -(Value(body) as int) else Value(body);
        Some(v)
      else None
    else if |s| > 0 && AllDigits(s) then Some(Value(s))
    else None
  }

  /** The values a signed integer of `bits` bits can hold. */
  predicate FitsSigned(x: int, bits: nat)
    requires bits >= 1
  {
    -Power(2, bits - 1) <= x < Power(2, bits - 1)
  }

  /** `strconv.ParseInt(s, 10, bits)` when it returns no error. */
  function ParseInt(s: string, bits: nat): (r: Option<int>)
    requires bits >= 1
    ensures r.Some? ==> FitsSigned(r.value, bits)
  {
    match ParseDecimal(s)
    case Some(v) => if FitsSigned(v, bits) then Some(v) else None
    case None => None
  }

  /** `strconv.ParseUint(s, 10, bits)` when it returns no error: digits only, no sign. */
  function ParseUint(s: string, bits: nat): (r: Option<nat>)
    ensures r.Some? ==> r.value < Power(2, bits)
  {
    if |s| > 0 && AllDigits(s) && Value(s) < Power(2, bits) then Some(Value(s)) else None
  }

  const MaxUint64: int := 0xFFFF_FFFF_FFFF_FFFF

  /** `s` without its one optional leading sign. */
  function Unsigned(s: string): (r: string)
    ensures |r| <= |s|
  {
    if |s| > 0 && (s[0] == '+' || s[0] == '-') then s[1..] else s
  }

  /**
   * `strconv.ParseUint`'s loop over the digits after the sign: it reads
   * them from left to right and stops with a range error on the first
   * digit that takes the value past 64 bits, before it looks at what
   * follows. So a digit run that long makes `Atoi` clamp, even when a
   * non-digit comes after it.
   */
  predicate AtoiOverflows(s: string)
  {
    PassesUint64(Unsigned(s), 0)
  }

  /** The loop from the value `acc` read so far: true when a digit of `s` takes it past 64 bits. */
  predicate PassesUint64(s: string, acc: nat)
    requires acc <= MaxUint64
    decreases |s|
  {
    |s| > 0 && IsDigit(s[0]) &&
    var n := 10 * acc + DigitValue(s[0]);
    n > MaxUint64 || PassesUint64(s[1..], n)
  }

  /**
   * `strconv.Atoi(s)` with its error discarded, as the codec uses it:
   * - the value when `s` is a decimal integer, clamped to 64 bits as Go
   *   returns it on a range error;
   * - the clamped bound when the digits after the sign pass 64 bits before
   *   any non-digit;
   * - 0 when the syntax is wrong otherwise.
   */
  function Atoi(s: string): (r: int)
    ensures MinInt64 <= r <= MaxInt64
    ensures AtoiOverflows(s) ==> |s| > 0 && r == (if s[0] == '-' then MinInt64 else MaxInt64)
    ensures ParseDecimal(s).None? && !AtoiOverflows(s) ==> r == 0
    ensures ParseDecimal(s).Some? && MinInt64 <= ParseDecimal(s).value <= MaxInt64 ==> r == ParseDecimal(s).value
    ensures ParseDecimal(s).Some? && ParseDecimal(s).value > MaxInt64 ==> r == MaxInt64
    ensures ParseDecimal(s).Some? && ParseDecimal(s).value < MinInt64 ==> r == MinInt64
  {
    DecimalRun(s);
    if AtoiOverflows(s) then (if s[0] == '-' then MinInt64 else MaxInt64)
    else match ParseDecimal(s)
      case None => 0
      case Some(v) => if v < MinInt64 then MinInt64 else if v > MaxInt64 then MaxInt64 else v
  }

  /** A decimal integer is its sign and the digits after it, and it overflows exactly when those pass 64 bits. */
  lemma DecimalRun(s: string)
    ensures ParseDecimal(s).Some? ==>
      |s| > 0 && AllDigits(Unsigned(s)) &&
      ParseDecimal(s).value == (if s[0] == '-' then -(Value(Unsigned(s)) as int) else Value(Unsigned(s))) &&
      (AtoiOverflows(s) <==> Value(Unsigned(s)) > MaxUint64)
  {
    if ParseDecimal(s).Some? {
      var u := Unsigned(s);
      assert u + [] == u;
      PassesRun(u, [], 0);
    }
  }

  /**
   * The loop over a digit run `p` followed by a non-digit overflows
   * exactly when the whole run, read after `acc`, passes 64 bits.
   */
  lemma {:induction false} PassesRun(p: string, rest: string, acc: nat)
    requires AllDigits(p) && (rest == [] || !IsDigit(rest[0])) && acc <= MaxUint64
    ensures PassesUint64(p + rest, acc) <==> acc * Power(10, |p|) + Value(p) > MaxUint64
    decreases |p|
  {
    if p == [] {
      assert p + rest == rest;
    } else {
      var s, q := p + rest, p[1..];
      assert s[0] == p[0] && s[1..] == q + rest;
      var n := 10 * acc + DigitValue(p[0]);
      RunStep(p, acc);
      assert PassesUint64(s, acc) <==> n > MaxUint64 || PassesUint64(q + rest, n);
      if n <= MaxUint64 {
        PassesRun(q, rest, n);
      }
    }
  }

  /** Reading the leading digit of `p` after `acc`, and then the rest, gives the same value. */
  lemma RunStep(p: string, acc: nat)
    requires AllDigits(p) && p != []
    ensures var n := 10 * acc + DigitValue(p[0]);
      acc * Power(10, |p|) + Value(p) == n * Power(10, |p| - 1) + Value(p[1..]) &&
      n * Power(10, |p| - 1) >= n
  {
    var d, k := DigitValue(p[0]), Power(10, |p| - 1);
    ValueFront(p);
    PowerPositive(10, |p| - 1);
    assert Power(10, |p|) == 10 * k;
    MulShift(acc, d, k);
    MulAtLeast(k, 1, 10 * acc + d);
  }

  /** A digit run is its leading digit times 10^(k-1) plus the rest. */
  lemma {:induction false} ValueFront(p: string)
    requires AllDigits(p) && p != []
    ensures Value(p) == DigitValue(p[0]) * Power(10, |p| - 1) + Value(p[1..])
  {
    if |p| > 1 {
      var q, r := p[..|p| - 1], p[1..];
      assert q[0] == p[0] && q[1..] == r[..|r| - 1] && r[|r| - 1] == p[|p| - 1];
      ValueFront(q);
      var d, k := DigitValue(p[0]), Power(10, |q| - 1);
      assert Power(10, |p| - 1) == 10 * k;
      assert Value(r) == 10 * Value(q[1..]) + DigitValue(p[|p| - 1]);
      assert 10 * (d * k) == d * (10 * k);
    }
  }

  /** When the loop overflows from `acc`, then `(acc + 1) * 10^|s|` is past 2^64. */
  lemma {:induction false} PassesBound(s: string, acc: nat)
    requires acc <= MaxUint64 && PassesUint64(s, acc)
    ensures (acc + 1) * Power(10, |s|) > MaxUint64 + 1
    decreases |s|
  {
    var n := 10 * acc + DigitValue(s[0]);
    var k := Power(10, |s| - 1);
    assert Power(10, |s|) == 10 * k;
    PowerPositive(10, |s| - 1);
    if n > MaxUint64 {
      MulAtLeast(10 * k, 10, acc + 1);
    } else {
      PassesBound(s[1..], n);
      MulAtLeast(10 * acc + 10, n + 1, k);
      assert (acc + 1) * (10 * k) == (10 * acc + 10) * k;
    }
  }

  /** Reading one more digit `d` after `acc` scales what follows by 10^k. */
  lemma MulShift(acc: nat, d: nat, k: nat)
    ensures acc * (10 * k) + d * k == (10 * acc + d) * k
  {
  }

  lemma MulAtLeast(a: nat, b: nat, c: nat)
    requires a >= b
    ensures a * c >= b * c
  {
    assert a * c == b * c + (a - b) * c;
  }

  /** No text of at most 19 runes makes `Atoi` overflow: 10^19 is below 2^64. */
  lemma ShortTokenFits(s: string)
    requires |s| <= 19
    ensures !AtoiOverflows(s)
  {
    var u := Unsigned(s);
    PowerMonotone(10, |u|, 19);
    assert Power(10, 10) == 10_000_000_000;
    if PassesUint64(u, 0) {
      PassesBound(u, 0);
    }
  }

  /**
   * A digit run past 64 bits clamps `Atoi` whatever follows it: Go's
   * `ParseUint` stops with a range error on the digit that overflows and
   * never reaches a following non-digit. So "99999999999999999999x" reads
   * as the largest int64, and with a leading '-' as the smallest.
   */
  lemma OverflowingRunClamps(p: string, rest: string)
    requires AllDigits(p) && Value(p) > MaxUint64
    requires rest == [] || !IsDigit(rest[0])
    ensures Atoi(p + rest) == MaxInt64
    ensures Atoi("-" + (p + rest)) == MinInt64
  {
    RunAfterSign(p, rest);
  }

  /** With or without a leading '-', the loop over `p + rest` overflows. */
  lemma RunAfterSign(p: string, rest: string)
    requires AllDigits(p) && Value(p) > MaxUint64
    requires rest == [] || !IsDigit(rest[0])
    ensures (p + rest)[0] != '-' && AtoiOverflows(p + rest)
    ensures ("-" + (p + rest))[0] == '-' && AtoiOverflows("-" + (p + rest))
  {
    var s := p + rest;
    PassesRun(p, rest, 0);
    assert IsDigit(s[0]) && Unsigned(s) == s;
    var t := "-" + s;
    assert t[1..] == s;
  }

  /**
   * The token from the range tag "0-99999999999999999999x": its end offset
   * clamps to the largest int64, and with a '-' to the smallest.
   */
  lemma OverflowingTokenClamps(p: string, s: string)
    requires p == "99999999999999999999" && s == p + "x"
    ensures Atoi(s) == MaxInt64
    ensures Atoi("-" + s) == MinInt64
  {
    TwentyNines(p);
    OverflowingRunClamps(p, "x");
  }

  /** Twenty nines are past 64 bits. */
  lemma TwentyNines(p: string)
    requires p == "99999999999999999999"
    ensures AllDigits(p) && Value(p) > MaxUint64
  {
    assert AllDigits(p) && |p| == 20 && DigitValue(p[0]) == 9;
    ValueFront(p);
    assert Power(10, 10) == 10_000_000_000;
    assert Power(10, 19) == 10_000_000_000_000_000_000;
  }

  /** `Atoi` reads back the digits of any number that fits 64 bits. */
  lemma AtoiDigits(n: nat)
    requires n <= MaxInt64
    ensures Atoi(Digits(n)) == n
  {
    ValueOfDigits(n);
    assert IsDigit(Digits(n)[0]);
  }

  /** A token without a '-' never resolves to a negative number. */
  lemma AtoiWithoutMinus(s: string)
    requires '-' !in s
    ensures Atoi(s) >= 0
  {
    if |s| > 0 { assert s[0] != '-'; }
  }

  /** `strconv.ParseBool(s)` when it returns no error. */
  function ParseBool(s: string): (r: Option<bool>)
    ensures r.Some? ==> 1 <= |s| <= 5 && (r.value <==> s[0] in "1tT")
  {
    if s in {"1", "t", "T", "TRUE", "true", "True"} then Some(true)
    else if s in {"0", "f", "F", "FALSE", "false", "False"} then Some(false)
    else None
  }

  // ---------------------------------------------------------------------
  // fmt

  /**
   * `fmt`'s `parsenum` reading the width digits of a verb, from the value
   * `acc` read so far: before each further digit it gives up when `acc`
   * has passed 10^6, and then takes the rest of the format, the verb
   * included, as part of the width it could not read.
   */
  function ParseNum(s: string, acc: nat): Option<nat>
    decreases |s|
  {
    if s == [] || !IsDigit(s[0]) then Some(acc)
    else if acc > 1_000_000 then None
    else ParseNum(s[1..], 10 * acc + DigitValue(s[0]))
  }

  /** The smallest width that `fmt` cannot read back from a format string. */
  const WidthLimit: nat := 10_000_010

  /**
   * The width `w` written into a format before its verb reads back as `w`
   * below 10,000,010, and is dropped, verb and all, from there on.
   */
  lemma WidthRead(w: nat, verb: char)
    requires !IsDigit(verb)
    ensures ParseNum(Digits(w) + [verb], 0) == if w < WidthLimit then Some(w) else None
  {
    WidthDigits(w);
    ParseNumAppend(Digits(w), [verb], 0);
  }

  lemma {:induction false} WidthDigits(w: nat)
    ensures ParseNum(Digits(w), 0) == if w < WidthLimit then Some(w) else None
    decreases w
  {
    if w < 10 {
      assert Digits(w)[1..] == [];
    } else {
      var q, c := Digits(w / 10), DigitChar(w % 10);
      assert Digits(w) == q + [c];
      WidthDigits(w / 10);
      ParseNumAppend(q, [c], 0);
      assert [c][1..] == [];
    }
  }

  /** Reading digits `q` and then `r` is reading `q`, then `r` from where `q` left off. */
  lemma {:induction false} ParseNumAppend(q: string, r: string, acc: nat)
    requires AllDigits(q)
    ensures ParseNum(q + r, acc) ==
      match ParseNum(q, acc) case None => None case Some(v) => ParseNum(r, v)
    decreases |q|
  {
    if q == [] {
      assert q + r == r;
    } else {
      assert (q + r)[0] == q[0] && (q + r)[1..] == q[1..] + r;
      if acc <= 1_000_000 {
        ParseNumAppend(q[1..], r, 10 * acc + DigitValue(q[0]));
      }
    }
  }

  /** What `fmt` prints for a verb whose width it dropped: no verb, then the argument as an extra one. */
  function NoVerb(typeName: string, arg: string): string
  {
    "%!(NOVERB)%!(EXTRA " + typeName + "=" + arg + ")"
  }

  /**
   * `fmt.Sprintf(fmt.Sprintf("%%0%dv", w), x)` for an `int64` `x`, as Go
   * runs it: zero-padded while `fmt` reads the width back, left-justified
   * with spaces for a negative width (the '-' is a flag), and the short
   * no-verb text once the width has 8 digits from 10,000,010 on.
   */
  function FormatZeroPaddedAsWritten(x: int, w: int): (r: string)
    ensures 0 <= w < WidthLimit ==> r == FormatZeroPadded(x, w)
    ensures w >= WidthLimit || w <= -(WidthLimit as int) ==> r == NoVerb("int64", FormatZeroPadded(x, 0))
  {
    var n: nat := if w < 0 then -w else w;
    WidthRead(n, 'v');
    var plain := FormatZeroPadded(x, 0);
    if ParseNum(Digits(n) + "v", 0).None? then NoVerb("int64", plain)
    else if w < 0 then plain + Repeat(' ', Max(0, n - |plain|))
    else FormatZeroPadded(x, w)
  }

  /**
   * An `int64` field over 10,000,010 columns holding 123: `fmt` drops the
   * width, so the text is 29 runes of no-verb output, not the number
   * zero-padded to the range.
   */
  lemma WidthLimitExample(t: string)
    requires t == "%!(NOVERB)%!(EXTRA int64=123)"
    ensures FormatZeroPaddedAsWritten(123, WidthLimit) == t && |t| == 29
    ensures |FormatZeroPadded(123, WidthLimit)| == WidthLimit
  {
    var plain := FormatZeroPadded(123, 0);
    assert plain == "123" by {
      assert Digits(123) == "123";
    }
  }

  /** A text field over 10,000,010 columns holding "ohmy": the slice overruns the no-verb text and panics. */
  lemma WidthLimitTextPanics(s: string)
    requires s == "ohmy"
    ensures LeftJustifyAsWritten(s, WidthLimit).None?
  {
    assert |NoVerb("string", s)| == 31;
  }

  /**
   * `fmt.Sprintf("%0Nv", x)` for an integer `x`, with `N` the width `w`: the decimal digits,
   * zero-filled on the left to `w` columns, the sign counting as one
   * column; never truncated. (A negative `w` only ever reaches a write
   * that rejects any non-empty text, so its padding is irrelevant.)
   */
  function FormatZeroPadded(x: int, w: int): (r: string)
    ensures |r| == Max(w, NaturalWidth(x))
    ensures x >= 0 ==> AllDigits(r)
    ensures x < 0 ==> r[0] == '-' && AllDigits(r[1..])
    ensures w <= NaturalWidth(x) ==> r == (if x >= 0 then Digits(x) else "-" + Digits(-x))
  {
    if x >= 0 then Repeat('0', Max(0, w - |Digits(x)|)) + Digits(x)
    else "-" + Repeat('0', Max(0, w - 1 - |Digits(-x)|)) + Digits(-x)
  }

  /** The number of columns `x` needs without padding. */
  function NaturalWidth(x: int): nat
  {
    if x >= 0 then |Digits(x)| else 1 + |Digits(-x)|
  }

  /** Parsing the padded text gives the number back. */
  lemma ParseFormatZeroPadded(x: int, w: int)
    ensures ParseDecimal(FormatZeroPadded(x, w)) == Some(x)
  {
    if x >= 0 {
      ParsePaddedDigits(Max(0, w - |Digits(x)|), x);
    } else {
      ParseNegativePadded(Max(0, w - 1 - |Digits(-x)|), -x);
    }
  }

  lemma ParseNegativePadded(z: nat, n: nat)
    ensures ParseDecimal("-" + Repeat('0', z) + Digits(n)) == Some(-(n as int))
  {
    var body := Repeat('0', z) + Digits(n);
    ParsePaddedDigits(z, n);
    assert ("-" + Repeat('0', z) + Digits(n))[1..] == body;
  }

  lemma ParsePaddedDigits(z: nat, n: nat)
    ensures AllDigits(Repeat('0', z) + Digits(n))
    ensures ParseDecimal(Repeat('0', z) + Digits(n)) == Some(n)
  {
    var body := Repeat('0', z) + Digits(n);
    LeadingZerosIgnored(z, Digits(n));
    ValueOfDigits(n);
    assert IsDigit(body[0]);
  }

  /**
   * `fmt.Sprintf("%-Ns", s)[0:w]`, with `N` the width `w`: `s` left-justified in `w` columns,
   * filled with spaces, cut at `w`. For `w < 0` Go panics on the slice
   * (see `LeftJustifyAsWritten`); here the field gets the empty text.
   */
  function LeftJustify(s: string, w: int): (r: string)
    ensures |r| == Max(0, w)
    ensures forall k :: 0 <= k < |r| && k < |s| ==> r[k] == s[k]
    ensures forall k :: |s| <= k < |r| ==> r[k] == ' '
  {
    if w <= 0 then "" else if |s| >= w then s[..w] else s + Repeat(' ', w - |s|)
  }

  /**
   * What Go does for `%-Ns` then `[0:w]`: `None` stands for the run-time
   * panic that slicing with a negative bound, or past the end of the
   * text, raises. From 10,000,010 on `fmt` drops the width and prints
   * the short no-verb text, which the slice then overruns unless `s`
   * alone is nearly that long.
   */
  function LeftJustifyAsWritten(s: string, w: int): (r: Option<string>)
    ensures r.None? <==> w < 0 || (w >= WidthLimit && w > |NoVerb("string", s)|)
    ensures 0 <= w < WidthLimit ==> r == Some(LeftJustify(s, w))
    ensures w >= WidthLimit && r.Some? ==> r.value == NoVerb("string", s)[..w]
  {
    if w < 0 then None
    else
      WidthRead(w, 's');
      var text := if ParseNum(Digits(w) + "s", 0).None? then NoVerb("string", s)
                  else if |s| >= w then s else s + Repeat(' ', w - |s|);
      assert w < WidthLimit && |s| < w ==> text[..w] == text;
      if w > |text| then None else Some(text[..w])
  }

  /** Trimming the spaces of a left-justified text gives the text back. */
  lemma {:induction false} TrimLeftJustified(s: string, w: int)
    requires |s| <= w
    requires s == [] || s[|s| - 1] != ' '
    ensures TrimRightSpaces(LeftJustify(s, w)) == s
  {
    var r := LeftJustify(s, w);
    assert r == s + Repeat(' ', w - |s|) || (|s| == w && r == s);
    TrimSpacesAfter(s, w - |s|);
  }

  lemma {:induction false} TrimSpacesAfter(s: string, n: nat)
    requires s == [] || s[|s| - 1] != ' '
    ensures TrimRightSpaces(s + Repeat(' ', n)) == s
    decreases n
  {
    if n == 0 {
      assert s + Repeat(' ', 0) == s;
    } else {
      var t := s + Repeat(' ', n);
      assert t[|t| - 1] == ' ';
      assert t[..|t| - 1] == s + Repeat(' ', n - 1);
      TrimSpacesAfter(s, n - 1);
    }
  }
}
