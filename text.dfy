/**
 * String primitives the two table implementations lean on: the C++ standard
 * library's find / find_first_of / find_first_not_of / substr, std::stoi and
 * std::to_string, the lexicographic order of std::string, and osquery's
 * split() helper (osquery/core/conversions.h is not part of this model; see
 * README.md for what of it is assumed).
 */
module Text {

  datatype Option<T> = None | Some(value: T)

  /** Index of the first character of s that is in cs, or |s| (find_first_of). */
  function FirstIn(s: string, cs: set<char>): (i: nat)
    ensures i <= |s|
    ensures forall k :: 0 <= k < i ==> s[k] !in cs
    ensures i < |s| ==> s[i] in cs
  {
    if s == [] || s[0] in cs then 0 else 1 + FirstIn(s[1..], cs)
  }

  /** A character of cs with none before it is where FirstIn stops. */
  lemma FirstInAt(s: string, cs: set<char>, i: nat)
    requires i < |s| && s[i] in cs && NoneIn(s[..i], cs)
    ensures FirstIn(s, cs) == i
  {
  }

  /** Index of the first character of s that is not in cs, or |s| (find_first_not_of). */
  function FirstNotIn(s: string, cs: set<char>): (i: nat)
    ensures i <= |s|
    ensures forall k :: 0 <= k < i ==> s[k] in cs
    ensures i < |s| ==> s[i] !in cs
  {
    if s == [] || s[0] !in cs then 0 else 1 + FirstNotIn(s[1..], cs)
  }

  predicate NoneIn(s: string, cs: set<char>)
  {
    forall k :: 0 <= k < |s| ==> s[k] !in cs
  }

  predicate AllIn(s: string, cs: set<char>)
  {
    forall k :: 0 <= k < |s| ==> s[k] in cs
  }

  predicate OccursAt(s: string, pat: string, k: nat)
  {
    k + |pat| <= |s| && s[k..k + |pat|] == pat
  }

  /** std::string::find: the first position at which pat occurs in s. */
  function Find(s: string, pat: string): (r: Option<nat>)
    ensures r.Some? ==> OccursAt(s, pat, r.value)
    ensures r.Some? ==> forall k :: 0 <= k < r.value ==> !OccursAt(s, pat, k)
    ensures r.None? ==> forall k :: 0 <= k <= |s| ==> !OccursAt(s, pat, k)
  {
    FindFrom(s, pat, 0)
  }

  function FindFrom(s: string, pat: string, from: nat): (r: Option<nat>)
    requires from <= |s| + 1
    ensures r.Some? ==> from <= r.value && OccursAt(s, pat, r.value)
    ensures r.Some? ==> forall k :: from <= k < r.value ==> !OccursAt(s, pat, k)
    ensures r.None? ==> forall k :: from <= k <= |s| ==> !OccursAt(s, pat, k)
    decreases |s| + 1 - from
  {
    if from + |pat| > |s| then None
    else if s[from..from + |pat|] == pat then Some(from)
    else FindFrom(s, pat, from + 1)
  }

  /**
   * osquery's split(s, delim): cut s at every character that is in delims and
   * drop the empty pieces.
   */
  function Split(s: string, delims: set<char>): (r: seq<string>)
    ensures forall k :: 0 <= k < |r| ==> r[k] != [] && NoneIn(r[k], delims)
    decreases |s|
  {
    var i := FirstIn(s, delims);
    var rest := if i < |s| then Split(s[i + 1..], delims) else [];
    if i == 0 then rest else [s[..i]] + rest
  }

  /** Joins the pieces with d between neighbours. */
  function Join(ts: seq<string>, d: char): string
  {
    if |ts| == 0 then ""
    else if |ts| == 1 then ts[0]
    else ts[0] + [d] + Join(ts[1..], d)
  }

  /**
   * osquery's split(s, delim, 1): the first piece of Split, then everything
   * after it rejoined with the delimiter.
   */
  function SplitOnce(s: string, d: char): (r: seq<string>)
    ensures |r| <= 2
    ensures |r| == |Split(s, {d})| || (|r| == 2 && |Split(s, {d})| > 2)
    ensures |r| > 0 ==> r[0] == Split(s, {d})[0]
  {
    var t := Split(s, {d});
    if |t| <= 1 then t else [t[0], Join(t[1..], d)]
  }

  /** Splitting yields nothing exactly when every character is a delimiter. */
  lemma {:induction false} SplitEmpty(s: string, delims: set<char>)
    ensures Split(s, delims) == [] <==> AllIn(s, delims)
    decreases |s|
  {
    var i := FirstIn(s, delims);
    if i == 0 && i < |s| {
      SplitEmpty(s[i + 1..], delims);
      if AllIn(s[1..], delims) {
        assert AllIn(s, delims) by {
          forall k | 0 <= k < |s| ensures s[k] in delims {
            if k > 0 { assert s[k] == s[1..][k - 1]; }
          }
        }
      }
      if AllIn(s, delims) {
        assert AllIn(s[1..], delims) by {
          forall k | 0 <= k < |s| - 1 ensures s[1..][k] in delims {
            assert s[1..][k] == s[k + 1];
          }
        }
      }
    }
  }

  /** When s does not start with a delimiter, the first piece is the text before the first delimiter. */
  lemma SplitFirst(s: string, delims: set<char>)
    requires s != [] && s[0] !in delims
    ensures |Split(s, delims)| >= 1
    ensures Split(s, delims)[0] == s[..FirstIn(s, delims)]
  {
  }

  /** Text without any delimiter splits into itself alone. */
  lemma SplitWhole(s: string, delims: set<char>)
    requires s != [] && NoneIn(s, delims)
    ensures Split(s, delims) == [s]
  {
    assert FirstIn(s, delims) == |s|;
    assert s[..|s|] == s;
  }

  /**
   * A line that does not start with d holds at least two pieces under
   * SplitOnce exactly when some non-d character follows its first d.
   */
  lemma SplitOnceTwoPieces(s: string, d: char)
    requires s != [] && s[0] != d
    ensures var i := FirstIn(s, {d});
      |SplitOnce(s, d)| == 2 <==> i < |s| && !AllIn(s[i + 1..], {d})
  {
    var i := FirstIn(s, {d});
    var t := Split(s, {d});
    if i < |s| {
      assert t == [s[..i]] + Split(s[i + 1..], {d});
      SplitEmpty(s[i + 1..], {d});
    } else {
      assert t == [s[..i]];
    }
  }

  /**
   * With a single d in s, SplitOnce cuts s into the text before it and the
   * text after it.
   */
  lemma SplitOnceAtSingle(s: string, d: char)
    requires s != [] && s[0] != d
    requires FirstIn(s, {d}) < |s| - 1
    requires NoneIn(s[FirstIn(s, {d}) + 1..], {d})
    ensures SplitOnce(s, d) == [s[..FirstIn(s, {d})], s[FirstIn(s, {d}) + 1..]]
  {
    var i := FirstIn(s, {d});
    SplitWhole(s[i + 1..], {d});
  }

  /** Splitting words joined with a delimiter they do not contain gives the words back. */
  lemma {:induction false} SplitJoin(ts: seq<string>, d: char)
    requires forall k :: 0 <= k < |ts| ==> ts[k] != [] && NoneIn(ts[k], {d})
    ensures Split(Join(ts, d), {d}) == ts
    decreases |ts|
  {
    if |ts| == 1 {
      SplitWhole(ts[0], {d});
    } else if |ts| > 1 {
      var s := Join(ts, d);
      var t := ts[0];
      assert s == t + [d] + Join(ts[1..], d);
      assert FirstIn(s, {d}) == |t| by {
        assert s[|t|] == d;
        forall k | 0 <= k < |t| ensures s[k] !in {d} {
          assert s[k] == t[k];
        }
      }
      assert s[..|t|] == t;
      assert s[|t| + 1..] == Join(ts[1..], d);
      SplitJoin(ts[1..], d);
      assert Split(s, {d}) == [t] + ts[1..];
      assert [t] + ts[1..] == ts;
    }
  }

  /** std::string::find_first_not_of(cs) followed by substr: drop a leading run of characters of cs. */
  function DropLeadingSet(s: string, cs: set<char>): (r: string)
    ensures AllIn(s, cs) ==> r == s
    ensures !AllIn(s, cs) ==>
              && r != [] && r[0] !in cs
              && exists k :: 0 <= k <= |s| && s == s[..k] + r && AllIn(s[..k], cs)
  {
    var i := FirstNotIn(s, cs);
    if i == |s| then s
    else
      assert s == s[..i] + s[i..];
      s[i..]
  }

  const Digits: set<char> := {'0', '1', '2', '3', '4', '5', '6', '7', '8', '9'}

  function DigitChar(d: nat): (c: char)
    requires d < 10
    ensures c in Digits
  {
    ['0', '1', '2', '3', '4', '5', '6', '7', '8', '9'][d]
  }

  function DigitValue(c: char): (d: nat)
    requires c in Digits
    ensures d < 10 && DigitChar(d) == c
  {
    if c == '0' then 0 else if c == '1' then 1 else if c == '2' then 2
    else if c == '3' then 3 else if c == '4' then 4 else if c == '5' then 5
    else if c == '6' then 6 else if c == '7' then 7 else if c == '8' then 8 else 9
  }

  /** std::to_string of a non-negative int: its decimal digits. */
  function Decimal(n: nat): (r: string)
    ensures r != [] && AllIn(r, Digits)
  {
    if n < 10 then [DigitChar(n)] else Decimal(n / 10) + [DigitChar(n % 10)]
  }

  /** The number a run of decimal digits denotes. */
  function DigitsValue(s: string): nat
    requires AllIn(s, Digits)
  {
    if s == [] then 0 else DigitsValue(s[..|s| - 1]) * 10 + DigitValue(s[|s| - 1])
  }

  lemma {:induction false} DecimalValue(n: nat)
    ensures DigitsValue(Decimal(n)) == n
  {
    if n >= 10 {
      DecimalValue(n / 10);
      var s := Decimal(n);
      assert s[..|s| - 1] == Decimal(n / 10);
    }
  }

  const IntMin: int := -0x8000_0000
  const IntMax: int := 0x7FFF_FFFF

  /** The characters std::isspace accepts in the "C" locale. */
  const Spaces: set<char> := {' ', '\t', '\n', '\U{0B}', '\U{0C}', '\r'}

  /**
   * std::stoi: skip leading white space, read an optional sign and the
   * longest run of decimal digits after it. None stands for the exceptions it
   * throws: std::invalid_argument when there is no digit, std::out_of_range
   * when the value does not fit in an int.
   */
  function Stoi(s: string): Option<int>
  {
    var rest := s[FirstNotIn(s, Spaces)..];
    var negative := rest != [] && rest[0] == '-';
    var body := if rest != [] && (rest[0] == '-' || rest[0] == '+') then rest[1..] else rest;
    var len := FirstNotIn(body, Digits);
    if len == 0 then None
    else
      var magnitude := DigitsValue(body[..len]);
      var v: int := if negative then 0 - (magnitude as int) else magnitude;
      if IntMin <= v <= IntMax then Some(v) else None
  }

  /** stoi reads back what to_string wrote, for every non-negative int. */
  lemma StoiDecimal(n: nat)
    requires n <= IntMax
    ensures Stoi(Decimal(n)) == Some(n)
  {
    var s := Decimal(n);
    assert s[0] in Digits;
    assert s[0] !in Spaces;
    assert FirstNotIn(s, Spaces) == 0;
    assert s[0..] == s;
    assert s[0] != '-' && s[0] != '+';
    assert FirstNotIn(s, Digits) == |s|;
    assert s[..|s|] == s;
    DecimalValue(n);
  }

  /** std::string's operator<: lexicographic order on characters. */
  predicate Less(a: string, b: string)
  {
    if a == [] then b != []
    else if b == [] then false
    else if a[0] != b[0] then a[0] < b[0]
    else Less(a[1..], b[1..])
  }

  lemma {:induction false} LessIrreflexive(a: string)
    ensures !Less(a, a)
  {
    if a != [] { LessIrreflexive(a[1..]); }
  }

  lemma {:induction false} LessTransitive(a: string, b: string, c: string)
    requires Less(a, b) && Less(b, c)
    ensures Less(a, c)
  {
    if a != [] && b != [] && c != [] && a[0] == b[0] && b[0] == c[0] {
      LessTransitive(a[1..], b[1..], c[1..]);
    }
  }

  lemma {:induction false} LessTotal(a: string, b: string)
    ensures a == b || Less(a, b) || Less(b, a)
  {
    if a != [] && b != [] && a[0] == b[0] {
      LessTotal(a[1..], b[1..]);
      if a[1..] == b[1..] {
        assert a == [a[0]] + a[1..] && b == [b[0]] + b[1..];
      }
    }
  }
}
