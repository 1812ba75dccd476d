/**
 * The /proc/mdstat parser of osquery's md_devices / md_drives /
 * md_personalities tables: line trimming, the line filter, and the
 * cursor-driven parse of the personalities line, one record per array block
 * and the "unused devices" trailer.
 *
 * Each step the source takes in place is a method here, proved equal to a
 * specification function; the properties of the parse are lemmas about those
 * functions.
 */
module MdStatParser {
  import opened Text

  /** One software RAID array as the parser records it (struct MDDevice). */
  datatype MDDevice = MDDevice(
    name: string,
    status: string,
    raidLevel: string,
    usableSize: string,
    other: string,
    drives: seq<string>,
    healthyDrives: string,
    driveStatuses: string,
    recovery: string,
    resync: string,
    bitmap: string,
    checkArray: string)

  const EmptyDevice: MDDevice := MDDevice("", "", "", "", "", [], "", "", "", "", "", "")

  /** The whole snapshot (struct MDStat). */
  datatype MDStat = MDStat(personalities: string, devices: seq<MDDevice>, unused: string)

  const EmptyStat: MDStat := MDStat("", [], "")

  /** The warnings parseMDStat logs, one per malformed line. */
  datatype Diag =
    | NoPersonalities(line: string)
    | BadHeader(line: string)
    | BadConfig(line: string)
    | UnexpectedLine(line: string)

  datatype Parsed = Parsed(mds: MDStat, diags: seq<Diag>)

  // ---------------------------------------------------------------------
  // trimStr
  // ---------------------------------------------------------------------

  function TrimLeft(s: string, c: char): string
  {
    if s != [] && s[0] == c then TrimLeft(s[1..], c) else s
  }

  function TrimRight(s: string, c: char): string
  {
    if s != [] && s[|s| - 1] == c then TrimRight(s[..|s| - 1], c) else s
  }

  /**
   * What trimStr(s, c) leaves: a string made only of c (the empty one
   * included) is left alone, anything else loses its leading and trailing
   * runs of c.
   */
  function Trimmed(s: string, c: char): string
  {
    if AllIn(s, {c}) then s else TrimRight(TrimLeft(s, c), c)
  }

  lemma AllInSlice(s: string, cs: set<char>, i: nat, j: nat)
    requires AllIn(s, cs) && i <= j <= |s|
    ensures AllIn(s[i..j], cs)
  {
    forall k | 0 <= k < j - i ensures s[i..j][k] in cs {
      assert s[i..j][k] == s[i + k];
    }
  }

  lemma AllInConcat(a: string, b: string, cs: set<char>)
    ensures AllIn(a + b, cs) <==> AllIn(a, cs) && AllIn(b, cs)
  {
    if AllIn(a + b, cs) {
      assert a == (a + b)[..|a|] && b == (a + b)[|a|..];
      AllInSlice(a + b, cs, 0, |a|);
      AllInSlice(a + b, cs, |a|, |a + b|);
    }
  }

  lemma {:induction false} TrimLeftAt(s: string, i: nat, c: char)
    requires i <= |s| && AllIn(s[..i], {c})
    requires i < |s| ==> s[i] != c
    ensures TrimLeft(s, c) == s[i..]
    decreases i
  {
    if i > 0 {
      assert s[0] == s[..i][0];
      AllInSlice(s[..i], {c}, 1, i);
      assert s[1..][..i - 1] == s[..i][1..i];
      TrimLeftAt(s[1..], i - 1, c);
      assert s[1..][i - 1..] == s[i..];
    }
  }

  lemma {:induction false} TrimRightAt(s: string, j: nat, c: char)
    requires 0 < j <= |s| && s[j - 1] != c && AllIn(s[j..], {c})
    ensures TrimRight(s, c) == s[..j]
    decreases |s| - j
  {
    if j < |s| {
      assert s[|s| - 1] == s[j..][|s| - 1 - j];
      var t := s[..|s| - 1];
      AllInSlice(s[j..], {c}, 0, |s| - 1 - j);
      assert t[j..] == s[j..][0..|s| - 1 - j];
      TrimRightAt(t, j, c);
      assert t[..j] == s[..j];
    } else {
      assert s[..j] == s;
    }
  }

  /** Where trimStr cuts: from the first character that is not c to just after the last one. */
  lemma TrimmedSlice(s: string, c: char)
    requires !AllIn(s, {c})
    ensures FirstNotIn(s, {c}) < LastKept(s, c)
    ensures Trimmed(s, c) == s[FirstNotIn(s, {c})..LastKept(s, c)]
  {
    var i := FirstNotIn(s, {c});
    assert AllIn(s[..i], {c}) by {
      forall k | 0 <= k < i ensures s[..i][k] in {c} { }
    }
    LastKeptBeyond(s, c, i);
    TrimmedBetween(s, c, i, LastKept(s, c));
  }

  /** Trimming keeps exactly the stretch between a run of c on the left and one on the right. */
  lemma TrimmedBetween(s: string, c: char, i: nat, j: nat)
    requires i < j <= |s| && s[i] != c && s[j - 1] != c
    requires AllIn(s[..i], {c}) && AllIn(s[j..], {c})
    ensures Trimmed(s, c) == s[i..j]
  {
    assert s[i] !in {c};
    TrimLeftAt(s, i, c);
    var t := s[i..];
    assert t[j - i..] == s[j..];
    assert t[j - i - 1] == s[j - 1];
    TrimRightAt(t, j - i, c);
    assert t[..j - i] == s[i..j];
  }

  /** Every character that is not c lies before LastKept. */
  lemma {:induction false} LastKeptBeyond(s: string, c: char, i: nat)
    requires i < |s| && s[i] != c
    ensures i < LastKept(s, c)
  {
    if s[|s| - 1] == c {
      LastKeptBeyond(s[..|s| - 1], c, i);
    }
  }

  /**
   * trimStr's promise: a string of c only (or the empty string) is returned
   * unchanged; otherwise the result is the slice of s from its first non-c
   * character to its last, with only c cut away on either side.
   */
  lemma TrimmedShape(s: string, c: char)
    ensures AllIn(s, {c}) ==> Trimmed(s, c) == s
    ensures !AllIn(s, {c}) ==>
              exists i, j :: 0 <= i < j <= |s| && Trimmed(s, c) == s[i..j]
                             && AllIn(s[..i], {c}) && AllIn(s[j..], {c})
                             && s[i] != c && s[j - 1] != c
  {
    if !AllIn(s, {c}) {
      TrimmedSlice(s, c);
      var i, j := FirstNotIn(s, {c}), LastKept(s, c);
      assert AllIn(s[..i], {c}) by {
        forall k | 0 <= k < i ensures s[..i][k] in {c} { }
      }
    }
  }

  /** One past the last character of s that is not c (0 when there is none). */
  function LastKept(s: string, c: char): (j: nat)
    ensures j <= |s| && AllIn(s[j..], {c})
    ensures j > 0 ==> s[j - 1] != c
  {
    if s != [] && s[|s| - 1] == c then
      var j := LastKept(s[..|s| - 1], c);
      assert forall k :: 0 <= k < |s| - j ==> s[j..][k] == (if j + k < |s| - 1 then s[..|s| - 1][j..][k] else c);
      j
    else |s|
  }

  /** Trimming a string that holds no c changes nothing. */
  lemma TrimmedWithout(s: string, c: char)
    requires NoneIn(s, {c})
    ensures Trimmed(s, c) == s
  {
    if s != [] {
      assert s[0] != c;
      assert TrimLeft(s, c) == s;
      assert TrimRight(s, c) == s;
    }
  }

  /** trimStr(std::string&, char): find the first and the last kept character, erase the rest. */
  method TrimStr(s: string, c: char) returns (t: string)
    ensures t == Trimmed(s, c)
  {
    var first := 0;
    while first < |s| && s[first] == c
      invariant first <= |s| && AllIn(s[..first], {c})
    {
      first := first + 1;
    }
    if first == |s| {
      assert s[..first] == s;
      return s;
    }
    var last := |s| - 1;
    while s[last] == c
      invariant first <= last < |s|
      invariant AllIn(s[last + 1..], {c})
      decreases last
    {
      assert s[last..] == [s[last]] + s[last + 1..];
      last := last - 1;
    }
    t := s;
    if last < |s| - 1 {
      t := t[..last + 1];
    }
    t := t[first..];
    assert !AllIn(s, {c});
    TrimLeftAt(s, first, c);
    var u := s[first..];
    assert AllIn(u[last + 1 - first..], {c}) by {
      assert u[last + 1 - first..] == s[last + 1..];
    }
    TrimRightAt(u, last + 1 - first, c);
  }

  function TrimmedAll(ts: seq<string>, c: char): (r: seq<string>)
    ensures |r| == |ts| && forall k :: 0 <= k < |ts| ==> r[k] == Trimmed(ts[k], c)
  {
    seq(|ts|, k requires 0 <= k < |ts| => Trimmed(ts[k], c))
  }

  /** trimStr(std::vector<std::string>&, char): trim every element in place. */
  method TrimAll(strs: seq<string>, c: char) returns (r: seq<string>)
    ensures r == TrimmedAll(strs, c)
  {
    r := strs;
    for i := 0 to |r|
      invariant |r| == |strs|
      invariant forall k :: 0 <= k < i ==> r[k] == Trimmed(strs[k], c)
      invariant forall k :: i <= k < |r| ==> r[k] == strs[k]
    {
      var t := TrimStr(r[i], c);
      r := r[i := t];
    }
  }

  // ---------------------------------------------------------------------
  // getLines
  // ---------------------------------------------------------------------

  /** The characters getLines treats as blank. */
  const Blank: set<char> := {'\t', '\r', '\U{0B}', ' '}

  /** getLines' output for the raw lines of the file: trimmed, blank lines dropped. */
  function NormalizedLines(raw: seq<string>): seq<string>
  {
    if raw == [] then []
    else
      var t := Trimmed(raw[|raw| - 1], ' ');
      NormalizedLines(raw[..|raw| - 1]) + (if AllIn(t, Blank) then [] else [t])
  }

  /** Trimming spaces never turns a blank line into a kept one or back. */
  lemma TrimmedBlank(s: string)
    ensures AllIn(Trimmed(s, ' '), Blank) <==> AllIn(s, Blank)
  {
    if !AllIn(s, {' '}) {
      TrimmedSlice(s, ' ');
      var i, j := FirstNotIn(s, {' '}), LastKept(s, ' ');
      assert s == s[..i] + s[i..j] + s[j..];
      assert AllIn(s[..i], Blank) by {
        forall k | 0 <= k < i ensures s[..i][k] in Blank { }
      }
      assert AllIn(s[j..], Blank) by {
        forall k | 0 <= k < |s| - j ensures s[j..][k] in Blank {
          assert s[j..][k] in {' '};
        }
      }
      AllInConcat(s[..i], s[i..j], Blank);
      AllInConcat(s[..i] + s[i..j], s[j..], Blank);
    }
  }

  /**
   * The line filter keeps order: normalising two runs of raw lines one after
   * the other gives the two results one after the other.
   */
  lemma {:induction false} NormalizedLinesAppend(a: seq<string>, b: seq<string>)
    ensures NormalizedLines(a + b) == NormalizedLines(a) + NormalizedLines(b)
    decreases |b|
  {
    if b == [] {
      assert a + b == a;
    } else {
      var b' := b[..|b| - 1];
      assert (a + b)[..|a + b| - 1] == a + b';
      NormalizedLinesAppend(a, b');
    }
  }

  /**
   * Every line getLines keeps is non-blank and neither starts nor ends with a
   * space, and there are never more kept lines than raw ones.
   */
  lemma {:induction false} NormalizedLinesShape(raw: seq<string>)
    ensures |NormalizedLines(raw)| <= |raw|
    ensures forall l :: l in NormalizedLines(raw) ==>
              !AllIn(l, Blank) && l[0] != ' ' && l[|l| - 1] != ' '
    decreases |raw|
  {
    if raw != [] {
      NormalizedLinesShape(raw[..|raw| - 1]);
      var s := raw[|raw| - 1];
      var t := Trimmed(s, ' ');
      if !AllIn(t, Blank) {
        TrimmedShape(s, ' ');
        if AllIn(s, {' '}) {
          assert AllIn(t, Blank);
        }
      }
    }
  }

  /** getLines: trim each raw line and keep it unless only blank characters remain. */
  method GetLines(raw: seq<string>) returns (lines: seq<string>)
    ensures lines == NormalizedLines(raw)
  {
    lines := [];
    for i := 0 to |raw|
      invariant lines == NormalizedLines(raw[..i])
    {
      var line := TrimStr(raw[i], ' ');
      assert raw[..i + 1][..i] == raw[..i];
      if FirstNotIn(line, Blank) < |line| {
        lines := lines + [line];
      }
    }
    assert raw[..|raw|] == raw;
  }

  // ---------------------------------------------------------------------
  // parseMDStat: the pieces of one array block
  // ---------------------------------------------------------------------

  const PersonalitiesMarker: string := "Personalities :"
  const UnusedMarker: string := "unused devices:"

  /** The first two characters are "md". */
  predicate IsArrayHeader(line: string)
  {
    |line| >= 2 && line[..2] == "md"
  }

  /** The first two characters are "un". */
  predicate IsUnusedLine(line: string)
  {
    |line| >= 2 && line[..2] == "un"
  }

  /**
   * The record an array header line starts: None when split(line, ":", 1)
   * gives fewer than two pieces; otherwise the trimmed name, and, when the
   * text after the colon holds at least two space-separated words, the
   * status, the RAID level and the member tokens.
   */
  function HeaderDevice(line: string): Option<MDDevice>
  {
    var mdline := SplitOnce(line, ':');
    if |mdline| < 2 then None
    else Some(WithSettings(EmptyDevice.(name := Trimmed(mdline[0], ' ')), TrimmedAll(Split(mdline[1], {' '}), ' ')))
  }

  /**
   * What the header parse promises in terms of the line: a record exists
   * exactly when the line has a ':' followed by some character other than
   * ':', and its name is the text before the first ':' trimmed of spaces.
   */
  lemma HeaderDeviceSpec(line: string)
    requires IsArrayHeader(line)
    ensures var i := FirstIn(line, {':'});
      && (HeaderDevice(line).Some? <==> i < |line| && !AllIn(line[i + 1..], {':'}))
      && (HeaderDevice(line).Some? ==> HeaderDevice(line).value.name == Trimmed(line[..i], ' '))
  {
    assert line[0] == line[..2][0] == 'm';
    SplitFirst(line, {':'});
    SplitOnceTwoPieces(line, ':');
  }

  /**
   * When the first ':' of a header is its only one and something follows
   * it, the settings are the space-separated words after it, each trimmed.
   */
  lemma HeaderSettings(line: string)
    requires IsArrayHeader(line)
    requires FirstIn(line, {':'}) < |line| - 1 && NoneIn(line[FirstIn(line, {':'}) + 1..], {':'})
    ensures var i := FirstIn(line, {':'});
      HeaderDevice(line) ==
        Some(WithSettings(EmptyDevice.(name := Trimmed(line[..i], ' ')),
                          TrimmedAll(Split(line[i + 1..], {' '}), ' ')))
  {
    assert line[0] == line[..2][0] == 'm';
    var i := FirstIn(line, {':'});
    SplitOnceAtSingle(line, ':');
    var mdline := SplitOnce(line, ':');
    assert |mdline| == 2 && mdline[0] == line[..i] && mdline[1] == line[i + 1..];
  }

  /** The status, the RAID level and the member tokens, when there are at least two settings. */
  function WithSettings(d: MDDevice, settings: seq<string>): MDDevice
  {
    if |settings| >= 2 then d.(status := settings[0], raidLevel := settings[1], drives := settings[2..])
    else d
  }

  /** The delimiters osquery's split() uses when none is given. */
  const DefaultDelims: set<char> := {' ', '\t'}

  /** " " + t for every t, concatenated. */
  function SpaceJoined(ts: seq<string>): string
  {
    if ts == [] then "" else SpaceJoined(ts[..|ts| - 1]) + " " + ts[|ts| - 1]
  }

  /**
   * The configuration line's contribution: nothing (and false, for the
   * warning) below four tokens; otherwise the size, the healthy-drives ratio,
   * the status string and the tokens between.
   */
  function WithConfig(d: MDDevice, line: string): (MDDevice, bool)
  {
    var t := Split(line, DefaultDelims);
    if |t| < 4 then (d, false)
    else
      var ct := TrimmedAll(t, ' ');
      (d.(usableSize := ct[0] + " " + ct[1],
          healthyDrives := ct[|ct| - 2],
          driveStatuses := ct[|ct| - 1],
          other := SpaceJoined(ct[2..|ct| - 2])),
       true)
  }

  /** The four keyed metadata lines, in the order the source tests them. */
  datatype MetaKey = Recovery | Resync | Check | Bitmap

  function KeyText(k: MetaKey): string
  {
    match k
    case Recovery => "recovery ="
    case Resync => "resync ="
    case Check => "check ="
    case Bitmap => "bitmap:"
  }

  /** The trimmed text after the first occurrence of k's text in line, if any. */
  function Extract(line: string, k: MetaKey): Option<string>
  {
    match Find(line, KeyText(k))
    case None => None
    case Some(pos) => Some(Trimmed(line[pos + |KeyText(k)|..], ' '))
  }

  /** The order in which the source tests the keys. */
  const KeyOrder: seq<MetaKey> := [Recovery, Resync, Check, Bitmap]

  /** The first of keys whose text the line contains, with the value after it. */
  function MatchFrom(line: string, keys: seq<MetaKey>): Option<(MetaKey, string)>
  {
    if keys == [] then None
    else
      match Extract(line, keys[0])
      case Some(v) => Some((keys[0], v))
      case None => MatchFrom(line, keys[1..])
  }

  /** Which metadata key a line carries, testing the keys in their fixed order. */
  function MatchMeta(line: string): Option<(MetaKey, string)>
  {
    MatchFrom(line, KeyOrder)
  }

  /**
   * A line matches when it contains the text of one of the keys anywhere;
   * the key reported is the first of them, in the order tested, that it
   * contains, and the value is the trimmed text after that key.
   */
  lemma {:induction false} MatchFromOrder(line: string, keys: seq<MetaKey>)
    ensures MatchFrom(line, keys).None? <==> forall i :: 0 <= i < |keys| ==> Extract(line, keys[i]).None?
    ensures MatchFrom(line, keys).Some? ==>
              exists i :: 0 <= i < |keys| && keys[i] == MatchFrom(line, keys).value.0
                          && Extract(line, keys[i]) == Some(MatchFrom(line, keys).value.1)
                          && forall j :: 0 <= j < i ==> Extract(line, keys[j]).None?
  {
    if keys != [] && Extract(line, keys[0]).None? {
      MatchFromOrder(line, keys[1..]);
      if MatchFrom(line, keys[1..]).Some? {
        var i :| 0 <= i < |keys[1..]| && keys[1..][i] == MatchFrom(line, keys[1..]).value.0
                 && Extract(line, keys[1..][i]) == Some(MatchFrom(line, keys[1..]).value.1)
                 && forall j :: 0 <= j < i ==> Extract(line, keys[1..][j]).None?;
        assert keys[i + 1] == keys[1..][i];
        forall j | 0 <= j < i + 1 ensures Extract(line, keys[j]).None? {
          if j > 0 {
            assert keys[j] == keys[1..][j - 1];
          }
        }
      }
      forall i | 0 < i < |keys| ensures keys[i] == keys[1..][i - 1] { }
    }
  }

  function WithMeta(d: MDDevice, k: MetaKey, v: string): MDDevice
  {
    match k
    case Recovery => d.(recovery := v)
    case Resync => d.(resync := v)
    case Check => d.(checkArray := v)
    case Bitmap => d.(bitmap := v)
  }

  /** The fields the header and configuration lines set, which metadata lines never touch. */
  predicate SameShape(d: MDDevice, e: MDDevice)
  {
    && d.name == e.name && d.status == e.status && d.raidLevel == e.raidLevel
    && d.usableSize == e.usableSize && d.other == e.other && d.drives == e.drives
    && d.healthyDrives == e.healthyDrives && d.driveStatuses == e.driveStatuses
  }

  /**
   * The metadata loop with the cursor n on the last consumed line: while the
   * next line exists and carries a key, store its value and consume it.
   * Returns the record and the cursor on the last line consumed.
   */
  function ReadMeta(lines: seq<string>, n: nat, d: MDDevice): (r: (MDDevice, nat))
    ensures n <= r.1 && (r.1 > n ==> r.1 < |lines|)
    decreases |lines| - n
  {
    if n + 1 >= |lines| then (d, n)
    else
      var m := MatchMeta(lines[n + 1]);
      if m.None? then (d, n)
      else ReadMeta(lines, n + 1, WithMeta(d, m.value.0, m.value.1))
  }

  /**
   * The metadata loop consumes exactly the maximal run of keyed lines after
   * the cursor and stops before the first unkeyed line.
   */
  lemma {:induction false} ReadMetaRun(lines: seq<string>, n: nat, d: MDDevice)
    ensures var r := ReadMeta(lines, n, d);
      && (forall j :: n < j <= r.1 ==> MatchMeta(lines[j]).Some?)
      && (r.1 + 1 < |lines| ==> MatchMeta(lines[r.1 + 1]).None?)
    decreases |lines| - n
  {
    if n + 1 < |lines| {
      var m := MatchMeta(lines[n + 1]);
      if m.Some? {
        var next: nat := n + 1;
        var d' := WithMeta(d, m.value.0, m.value.1);
        var r := ReadMeta(lines, next, d');
        assert ReadMeta(lines, n, d) == r;
        ReadMetaRun(lines, next, d');
        forall j | n < j <= r.1 ensures MatchMeta(lines[j]).Some? {
          if j == next {
            assert lines[j] == lines[n + 1];
          }
        }
      }
    }
  }

  /** The metadata loop leaves the fields of the header and configuration lines alone. */
  lemma {:induction false} ReadMetaShape(lines: seq<string>, n: nat, d: MDDevice)
    ensures SameShape(d, ReadMeta(lines, n, d).0)
    decreases |lines| - n
  {
    if n + 1 < |lines| {
      var m := MatchMeta(lines[n + 1]);
      if m.Some? {
        var d' := WithMeta(d, m.value.0, m.value.1);
        assert SameShape(d, d');
        ReadMetaShape(lines, n + 1, d');
      }
    }
  }

  /** The field of d that key k's line writes. */
  function MetaField(d: MDDevice, k: MetaKey): string
  {
    match k
    case Recovery => d.recovery
    case Resync => d.resync
    case Check => d.checkArray
    case Bitmap => d.bitmap
  }

  /** The line is a metadata line for key k. */
  predicate Carries(line: string, k: MetaKey)
  {
    MatchMeta(line).Some? && MatchMeta(line).value.0 == k
  }

  /** A metadata field no consumed line carries the key of is left as it was. */
  lemma {:induction false} ReadMetaUntouched(lines: seq<string>, n: nat, d: MDDevice, k: MetaKey)
    requires forall j :: n < j <= ReadMeta(lines, n, d).1 ==> !Carries(lines[j], k)
    ensures MetaField(ReadMeta(lines, n, d).0, k) == MetaField(d, k)
    decreases |lines| - n
  {
    if n + 1 < |lines| {
      var m := MatchMeta(lines[n + 1]);
      if m.Some? {
        var next: nat := n + 1;
        var d' := WithMeta(d, m.value.0, m.value.1);
        assert ReadMeta(lines, n, d) == ReadMeta(lines, next, d');
        assert !Carries(lines[next], k);
        assert MetaField(d', k) == MetaField(d, k);
        ReadMetaUntouched(lines, next, d', k);
      }
    }
  }

  /**
   * What the metadata loop leaves in each keyed field: the trimmed value of
   * the last consumed line that carries the key, later lines overwriting
   * earlier ones (with ReadMetaUntouched for a key no consumed line carries).
   */
  lemma {:induction false} ReadMetaField(lines: seq<string>, n: nat, d: MDDevice, k: MetaKey, j: nat)
    requires n < j <= ReadMeta(lines, n, d).1 && Carries(lines[j], k)
    requires forall j' :: j < j' <= ReadMeta(lines, n, d).1 ==> !Carries(lines[j'], k)
    ensures MetaField(ReadMeta(lines, n, d).0, k) == MatchMeta(lines[j]).value.1
    decreases |lines| - n
  {
    var m := MatchMeta(lines[n + 1]);
    var next: nat := n + 1;
    var d' := WithMeta(d, m.value.0, m.value.1);
    assert ReadMeta(lines, n, d) == ReadMeta(lines, next, d');
    if j == next {
      assert MetaField(d', k) == m.value.1;
      ReadMetaUntouched(lines, next, d', k);
    } else {
      ReadMetaField(lines, next, d', k, j);
    }
  }

  /** The configuration line of a header at h; a header on the last line has none. */
  function ConfigLine(lines: seq<string>, h: nat): string
  {
    if h + 1 < |lines| then lines[h + 1] else ""
  }

  /**
   * The array block that starts with the record d0 read from the header at
   * lines[h]: the record it yields, the cursor after it, and whether its
   * configuration line was well formed. The block consumes the header, the
   * configuration line and exactly the run of keyed lines that follows; the
   * first line after the block carries no key.
   */
  function BlockFrom(lines: seq<string>, h: nat, d0: MDDevice): (r: (MDDevice, nat, bool))
    requires h < |lines|
    ensures h + 2 <= r.1 <= |lines| + 1
    ensures r.1 == h + 2 || r.1 <= |lines|
    ensures forall j :: h + 2 <= j < r.1 ==> MatchMeta(lines[j]).Some?
    ensures r.1 < |lines| ==> MatchMeta(lines[r.1]).None?
  {
    var config := WithConfig(d0, ConfigLine(lines, h));
    var meta := ReadMeta(lines, h + 1, config.0);
    ReadMetaRun(lines, h + 1, config.0);
    (meta.0, meta.1 + 1, config.1)
  }

  /** The array block whose header is lines[h]. */
  function Block(lines: seq<string>, h: nat): (MDDevice, nat, bool)
    requires h < |lines| && HeaderDevice(lines[h]).Some?
  {
    BlockFrom(lines, h, HeaderDevice(lines[h]).value)
  }

  // ---------------------------------------------------------------------
  // parseMDStat: the cursor loop
  // ---------------------------------------------------------------------

  /** The outcome of a call that may throw (std::string::substr's std::out_of_range here). */
  datatype Outcome<T> = Done(value: T) | Thrown(line: string)

  /**
   * One iteration of the outer loop at cursor n. Unlike the source, a
   * malformed header is skipped (cursor n + 1) and a block that runs to the
   * end of the input stops there instead of reading past it.
   */
  function Step(lines: seq<string>, n: nat, p: Parsed): (r: Outcome<(nat, Parsed)>)
    requires n < |lines|
    ensures r.Thrown? <==> !IsArrayHeader(lines[n]) && IsUnusedLine(lines[n]) && |lines[n]| < |UnusedMarker|
    ensures r.Done? ==> n < r.value.0 <= |lines| + 1
    ensures r.Done? && IsArrayHeader(lines[n]) && HeaderDevice(lines[n]).Some? ==> r.value.0 >= n + 2
    ensures r.Done? ==> r.value.1.mds.personalities == p.mds.personalities
    ensures r.Done? ==>
              r.value.1.mds.devices ==
                p.mds.devices + (if IsArrayHeader(lines[n]) && HeaderDevice(lines[n]).Some?
                                 then [Block(lines, n).0] else [])
    ensures r.Done? ==>
              r.value.1.mds.unused ==
                (if !IsArrayHeader(lines[n]) && IsUnusedLine(lines[n])
                 then lines[n][|UnusedMarker|..] else p.mds.unused)
    ensures r.Done? ==> p.diags <= r.value.1.diags
    ensures r.Done? && IsArrayHeader(lines[n]) && HeaderDevice(lines[n]).None? ==>
              r.value.1.diags == p.diags + [BadHeader(lines[n])]
    ensures r.Done? && IsArrayHeader(lines[n]) && HeaderDevice(lines[n]).Some? ==>
              r.value.1.diags ==
                p.diags + (if |Split(ConfigLine(lines, n), DefaultDelims)| < 4
                           then [BadConfig(ConfigLine(lines, n))] else [])
    ensures r.Done? && !IsArrayHeader(lines[n]) ==>
              r.value.1.diags == p.diags + (if IsUnusedLine(lines[n]) then [] else [UnexpectedLine(lines[n])])
  {
    var line := lines[n];
    if IsArrayHeader(line) then
      match HeaderDevice(line)
      case None => Done((n + 1, Parsed(p.mds, p.diags + [BadHeader(line)])))
      case Some(_) =>
        var (d, next, ok) := Block(lines, n);
        var diags := if ok then p.diags else p.diags + [BadConfig(ConfigLine(lines, n))];
        Done((next, Parsed(p.mds.(devices := p.mds.devices + [d]), diags)))
    else if IsUnusedLine(line) then
      if |line| < |UnusedMarker| then Thrown(line)
      else Done((n + 1, Parsed(p.mds.(unused := line[|UnusedMarker|..]), p.diags)))
    else Done((n + 1, Parsed(p.mds, p.diags + [UnexpectedLine(line)])))
  }

  /** The outer loop from cursor n to the end of the input. */
  function ParseFrom(lines: seq<string>, n: nat, p: Parsed): Outcome<Parsed>
    requires n <= |lines| + 1
    decreases |lines| + 1 - n
  {
    if n >= |lines| then Done(p)
    else
      match Step(lines, n, p)
      case Thrown(l) => Thrown(l)
      case Done((n', p')) => ParseFrom(lines, n', p')
  }

  /** parseMDStat on the normalised lines. */
  function Parse(lines: seq<string>): Outcome<Parsed>
  {
    if |lines| == 0 then Done(Parsed(EmptyStat, []))
    else if Find(lines[0], PersonalitiesMarker).Some? then
      ParseFrom(lines, 1, Parsed(EmptyStat.(personalities := lines[0][|PersonalitiesMarker|..]), []))
    else ParseFrom(lines, 0, Parsed(EmptyStat, [NoPersonalities(lines[0])]))
  }

  // ---------------------------------------------------------------------
  // parseMDStat: the imperative loop
  // ---------------------------------------------------------------------

  /** Lines 131-152: split the header once at ':', trim, read status, level and members. */
  method ParseHeader(line: string) returns (d: Option<MDDevice>)
    ensures d == HeaderDevice(line)
  {
    var mdline := SplitOnce(line, ':');
    if |mdline| < 2 {
      return None;
    }
    var name := TrimStr(mdline[0], ' ');
    var settings := TrimAll(Split(mdline[1], {' '}), ' ');
    var mdd := ApplySettings(EmptyDevice.(name := name), settings);
    d := Some(mdd);
  }

  /** Lines 145-152: status and RAID level, then every further setting as a member token. */
  method ApplySettings(d: MDDevice, settings: seq<string>) returns (mdd: MDDevice)
    ensures mdd == WithSettings(d, settings)
  {
    mdd := d;
    if |settings| >= 2 {
      mdd := mdd.(status := settings[0], raidLevel := settings[1]);
      var drives := [];
      for i := 2 to |settings|
        invariant drives == settings[2..i]
      {
        drives := drives + [settings[i]];
      }
      assert drives == settings[2..];
      mdd := mdd.(drives := drives);
    }
  }

  /** Lines 156-171: the configuration line. */
  method ParseConfig(d: MDDevice, line: string) returns (mdd: MDDevice, ok: bool)
    ensures (mdd, ok) == WithConfig(d, line)
  {
    mdd := d;
    var configline := Split(line, DefaultDelims);
    if |configline| < 4 {
      return mdd, false;
    }
    configline := TrimAll(configline, ' ');
    mdd := mdd.(usableSize := configline[0] + " " + configline[1],
                healthyDrives := configline[|configline| - 2],
                driveStatuses := configline[|configline| - 1]);
    var other := "";
    for i := 2 to |configline| - 2
      invariant other == SpaceJoined(configline[2..i])
    {
      assert configline[2..i + 1][..i - 2] == configline[2..i];
      other := other + " " + configline[i];
    }
    mdd := mdd.(other := other);
    ok := true;
  }

  /** Lines 178-204: test the keys of one line in their fixed order and cut out the value. */
  method MatchLine(line: string) returns (m: Option<(MetaKey, string)>)
    ensures m == MatchMeta(line)
  {
    assert KeyOrder[0] == Recovery && KeyOrder[1..] == [Resync, Check, Bitmap];
    var v := ExtractKey(line, Recovery);
    if v.Some? {
      return Some((Recovery, v.value));
    }
    assert MatchMeta(line) == MatchFrom(line, [Resync, Check, Bitmap]);
    assert [Resync, Check, Bitmap][1..] == [Check, Bitmap];
    v := ExtractKey(line, Resync);
    if v.Some? {
      return Some((Resync, v.value));
    }
    assert MatchMeta(line) == MatchFrom(line, [Check, Bitmap]);
    assert [Check, Bitmap][1..] == [Bitmap];
    v := ExtractKey(line, Check);
    if v.Some? {
      return Some((Check, v.value));
    }
    assert MatchMeta(line) == MatchFrom(line, [Bitmap]);
    assert [Bitmap][1..] == [];
    v := ExtractKey(line, Bitmap);
    if v.Some? {
      return Some((Bitmap, v.value));
    }
    assert MatchMeta(line) == MatchFrom(line, []);
    return None;
  }

  /** One test of the chain: find the key's text and cut out the trimmed value after it. */
  method ExtractKey(line: string, k: MetaKey) returns (v: Option<string>)
    ensures v == Extract(line, k)
  {
    var pos := Find(line, KeyText(k));
    if pos.None? {
      return None;
    }
    var value := TrimStr(line[pos.value + |KeyText(k)|..], ' ');
    return Some(value);
  }

  /** Lines 176-205: consume keyed lines after cursor n while there are any. */
  method ReadMetaLines(lines: seq<string>, n0: nat, d: MDDevice) returns (mdd: MDDevice, n: nat)
    ensures (mdd, n) == ReadMeta(lines, n0, d)
  {
    mdd, n := d, n0;
    while n + 1 < |lines|
      invariant ReadMeta(lines, n, mdd) == ReadMeta(lines, n0, d)
      decreases |lines| - n
    {
      var m := MatchLine(lines[n + 1]);
      if m.None? {
        break;
      }
      mdd := WithMeta(mdd, m.value.0, m.value.1);
      n := n + 1;
    }
  }

  /** Lines 138-207: the record of the array block whose header gave the record header. */
  method ParseBlock(lines: seq<string>, n: nat, header: MDDevice) returns (mdd: MDDevice, next: nat, ok: bool)
    requires n < |lines|
    ensures (mdd, next, ok) == BlockFrom(lines, n, header)
  {
    var cfg := ConfigLine(lines, n);
    mdd, ok := ParseConfig(header, cfg);
    var m;
    mdd, m := ReadMetaLines(lines, n + 1, mdd);
    next := m + 1;
  }

  /** Lines 127-218: one iteration of the outer loop at cursor n. */
  method ParseStep(lines: seq<string>, n: nat, mds: MDStat, diags: seq<Diag>) returns (r: Outcome<(nat, Parsed)>)
    requires n < |lines|
    ensures r == Step(lines, n, Parsed(mds, diags))
  {
    var line := lines[n];
    if IsArrayHeader(line) {
      var header := ParseHeader(line);
      if header.None? {
        return Done((n + 1, Parsed(mds, diags + [BadHeader(line)])));
      }
      var mdd, next, ok := ParseBlock(lines, n, header.value);
      var diags' := if ok then diags else diags + [BadConfig(ConfigLine(lines, n))];
      return Done((next, Parsed(mds.(devices := mds.devices + [mdd]), diags')));
    } else if IsUnusedLine(line) {
      if |line| < |UnusedMarker| {
        return Thrown(line);
      }
      return Done((n + 1, Parsed(mds.(unused := line[|UnusedMarker|..]), diags)));
    }
    return Done((n + 1, Parsed(mds, diags + [UnexpectedLine(line)])));
  }

  /**
   * parseMDStat: the personalities line, then the cursor loop over array
   * blocks, the trailer and unexpected lines.
   */
  method ParseMDStat(lines: seq<string>) returns (r: Outcome<Parsed>)
    ensures r == Parse(lines)
  {
    var mds := EmptyStat;
    var diags: seq<Diag> := [];
    if |lines| < 1 {
      return Done(Parsed(mds, diags));
    }
    var n := 0;
    var found := Find(lines[0], PersonalitiesMarker);
    if found.Some? {
      mds := mds.(personalities := lines[0][|PersonalitiesMarker|..]);
      n := 1;
      assert Parse(lines) == ParseFrom(lines, 1, Parsed(mds, diags));
    } else {
      diags := [NoPersonalities(lines[0])];
      assert Parse(lines) == ParseFrom(lines, 0, Parsed(mds, diags));
    }
    while n < |lines|
      invariant n <= |lines| + 1
      invariant ParseFrom(lines, n, Parsed(mds, diags)) == Parse(lines)
      decreases |lines| + 1 - n
    {
      var step := ParseStep(lines, n, mds, diags);
      if step.Thrown? {
        return Thrown(step.line);
      }
      n, mds, diags := step.value.0, step.value.1.mds, step.value.1.diags;
    }
    r := Done(Parsed(mds, diags));
  }

  // ---------------------------------------------------------------------
  // Properties of the parse
  // ---------------------------------------------------------------------

  /**
   * The loop only appends: records and warnings already gathered stay in
   * front, in order, the personalities never change, and each array block
   * costs at least two lines, so at most (lines left + 1) / 2 records are
   * added.
   */
  lemma {:induction false} ParseFromAppends(lines: seq<string>, n: nat, p: Parsed)
    requires n <= |lines| + 1
    ensures var r := ParseFrom(lines, n, p);
      r.Done? ==>
        && p.mds.devices <= r.value.mds.devices
        && p.diags <= r.value.diags
        && r.value.mds.personalities == p.mds.personalities
        && 2 * (|r.value.mds.devices| - |p.mds.devices|) <= |lines| + 1 - n
    decreases |lines| + 1 - n
  {
    if n < |lines| {
      match Step(lines, n, p)
      case Thrown(_) =>
      case Done((n', p')) =>
        ParseFromAppends(lines, n', p');
    }
  }

  /** d is the record of the array block of a well-formed header at or after line lo. */
  predicate BlockRecord(lines: seq<string>, lo: nat, d: MDDevice)
  {
    exists h :: lo <= h < |lines| && IsArrayHeader(lines[h]) && HeaderDevice(lines[h]).Some?
                && d == Block(lines, h).0
  }

  lemma BlockRecordBelow(lines: seq<string>, lo: nat, lo': nat, d: MDDevice)
    requires lo <= lo' && BlockRecord(lines, lo', d)
    ensures BlockRecord(lines, lo, d)
  {
    var h :| lo' <= h < |lines| && IsArrayHeader(lines[h]) && HeaderDevice(lines[h]).Some?
             && d == Block(lines, h).0;
  }

  /**
   * Every record the loop adds is the block of some array header at or after
   * the cursor.
   */
  lemma {:induction false} ParseFromBlocks(lines: seq<string>, n: nat, p: Parsed)
    requires n <= |lines| + 1
    ensures var r := ParseFrom(lines, n, p);
      r.Done? ==>
        forall k :: |p.mds.devices| <= k < |r.value.mds.devices| ==> BlockRecord(lines, n, r.value.mds.devices[k])
    decreases |lines| + 1 - n
  {
    if n < |lines| {
      match Step(lines, n, p)
      case Thrown(_) =>
      case Done((n', p')) =>
        ParseFromBlocks(lines, n', p');
        ParseFromAppends(lines, n', p');
        var r := ParseFrom(lines, n, p);
        if r.Done? {
          var ds := r.value.mds.devices;
          forall k | |p.mds.devices| <= k < |ds|
            ensures BlockRecord(lines, n, ds[k])
          {
            if k < |p'.mds.devices| {
              assert ds[k] == p'.mds.devices[k] == Block(lines, n).0;
            } else {
              BlockRecordBelow(lines, n, n', ds[k]);
            }
          }
        }
    }
  }

  /** The unused-devices text is the one already held or the tail of a trailer line at or after the cursor. */
  lemma {:induction false} ParseFromUnused(lines: seq<string>, n: nat, p: Parsed)
    requires n <= |lines| + 1
    ensures var r := ParseFrom(lines, n, p);
      r.Done? ==>
        || r.value.mds.unused == p.mds.unused
        || exists h :: n <= h < |lines| && IsUnusedLine(lines[h]) && |lines[h]| >= |UnusedMarker|
                       && r.value.mds.unused == lines[h][|UnusedMarker|..]
    decreases |lines| + 1 - n
  {
    if n < |lines| {
      match Step(lines, n, p)
      case Thrown(_) =>
      case Done((n', p')) =>
        ParseFromUnused(lines, n', p');
    }
  }

  /**
   * A trailer line that ends the input sets the unused-devices text: when
   * the last line is an "un" line at least as long as the marker, carries
   * no metadata key and does not follow a well-formed header (so no array
   * block swallows it), the loop reaches it and, unless an earlier short
   * trailer threw, the text is that line from index 15 on.
   */
  lemma {:induction false} ParseFromTrailer(lines: seq<string>, n: nat, p: Parsed)
    requires |lines| > 0 && n <= |lines| - 1
    requires IsUnusedLine(lines[|lines| - 1]) && |lines[|lines| - 1]| >= |UnusedMarker|
    requires MatchMeta(lines[|lines| - 1]).None?
    requires |lines| >= 2 ==> !(IsArrayHeader(lines[|lines| - 2]) && HeaderDevice(lines[|lines| - 2]).Some?)
    ensures ParseFrom(lines, n, p).Done? ==>
              ParseFrom(lines, n, p).value.mds.unused == lines[|lines| - 1][|UnusedMarker|..]
    decreases |lines| - n
  {
    var last := |lines| - 1;
    var line := lines[last];
    assert !IsArrayHeader(line) by { assert line[..2] == "un"; }
    var step := Step(lines, n, p);
    if n == last {
      assert step.Done? && step.value.0 == n + 1;
    } else if step.Done? {
      var n' := step.value.0;
      if IsArrayHeader(lines[n]) && HeaderDevice(lines[n]).Some? {
        var b := Block(lines, n);
        assert n' == b.1;
      } else {
        assert n' == n + 1;
      }
      assert ParseFrom(lines, n, p) == ParseFrom(lines, n', step.value.1);
      ParseFromTrailer(lines, n', step.value.1);
    }
  }

  /** On a whole input that ends with a trailer line no block swallows, the unused text is read from it. */
  lemma ParseTrailer(lines: seq<string>)
    requires |lines| >= 2
    requires IsUnusedLine(lines[|lines| - 1]) && |lines[|lines| - 1]| >= |UnusedMarker|
    requires MatchMeta(lines[|lines| - 1]).None?
    requires !(IsArrayHeader(lines[|lines| - 2]) && HeaderDevice(lines[|lines| - 2]).Some?)
    ensures Parse(lines).Done? ==> Parse(lines).value.mds.unused == lines[|lines| - 1][|UnusedMarker|..]
  {
    var n: nat := if Find(lines[0], PersonalitiesMarker).Some? then 1 else 0;
    var p := if n == 1 then Parsed(EmptyStat.(personalities := lines[0][|PersonalitiesMarker|..]), [])
             else Parsed(EmptyStat, [NoPersonalities(lines[0])]);
    assert Parse(lines) == ParseFrom(lines, n, p);
    ParseFromTrailer(lines, n, p);
  }

  /**
   * What Parse promises about a whole input: the personalities are the rest
   * of line 0 after the marker when line 0 carries it (and empty otherwise,
   * with one warning); every record is the block of an array header line;
   * the unused text comes from a trailer line; and there are at most
   * (|lines| + 1) / 2 records.
   */
  lemma ParseSnapshot(lines: seq<string>)
    ensures var r := Parse(lines);
      r.Done? ==>
        && r.value.mds.personalities ==
             (if |lines| > 0 && Find(lines[0], PersonalitiesMarker).Some?
              then lines[0][|PersonalitiesMarker|..] else "")
        && (|lines| > 0 && Find(lines[0], PersonalitiesMarker).None? ==>
              |r.value.diags| > 0 && r.value.diags[0] == NoPersonalities(lines[0]))
        && 2 * |r.value.mds.devices| <= |lines| + 1
        && (forall k :: 0 <= k < |r.value.mds.devices| ==> BlockRecord(lines, 0, r.value.mds.devices[k]))
        && (r.value.mds.unused == "" ||
              exists h :: 0 <= h < |lines| && IsUnusedLine(lines[h]) && |lines[h]| >= |UnusedMarker|
                          && r.value.mds.unused == lines[h][|UnusedMarker|..])
  {
    if |lines| > 0 {
      var n: nat := if Find(lines[0], PersonalitiesMarker).Some? then 1 else 0;
      var p := if n == 1 then Parsed(EmptyStat.(personalities := lines[0][|PersonalitiesMarker|..]), [])
               else Parsed(EmptyStat, [NoPersonalities(lines[0])]);
      assert Parse(lines) == ParseFrom(lines, n, p);
      assert |p.mds.devices| == 0;
      ParseFromAppends(lines, n, p);
      ParseFromBlocks(lines, n, p);
      ParseFromUnused(lines, n, p);
      var r := ParseFrom(lines, n, p);
      if r.Done? {
        var ds := r.value.mds.devices;
        forall k | 0 <= k < |ds| ensures BlockRecord(lines, 0, ds[k]) {
          BlockRecordBelow(lines, 0, n, ds[k]);
        }
      }
    }
  }

  // ---------------------------------------------------------------------
  // The cursor arithmetic as written, and where it goes wrong
  // ---------------------------------------------------------------------

  /**
   * The metadata loop as written (lines 177-205): it reads lines[n + 1]
   * without checking that it exists. None marks that out-of-range read.
   */
  function SourceMeta(lines: seq<string>, n: nat): Option<nat>
    decreases |lines| - n
  {
    if n + 1 >= |lines| then None
    else if MatchMeta(lines[n + 1]).Some? then SourceMeta(lines, n + 1)
    else Some(n)
  }

  /**
   * The cursor after one iteration of the outer loop as written (lines
   * 126-219), or None when the iteration reads past the end of lines. The
   * malformed-header branch leaves the cursor where it was.
   */
  function SourceStep(lines: seq<string>, n: nat): Option<nat>
    requires n < |lines|
  {
    if IsArrayHeader(lines[n]) then
      if HeaderDevice(lines[n]).None? then Some(n)
      else if n + 1 >= |lines| then None
      else
        match SourceMeta(lines, n + 1)
        case None => None
        case Some(m) => Some(m + 1)
    else Some(n + 1)
  }

  /**
   * As written, a malformed header line leaves the cursor where it was, so
   * the next iteration sees the same line again and the loop never ends.
   */
  lemma SourceStallsOnMalformedHeader(lines: seq<string>, n: nat)
    requires n < |lines| && IsArrayHeader(lines[n]) && HeaderDevice(lines[n]).None?
    ensures SourceStep(lines, n) == Some(n)
    ensures forall p :: Step(lines, n, p).Done? && Step(lines, n, p).value.0 == n + 1
  {
  }

  /** "md0 :" is such a line: the source loops forever on ["md0 :"]. */
  lemma MalformedHeaderExample()
    ensures IsArrayHeader("md0 :") && HeaderDevice("md0 :").None?
    ensures SourceStep(["md0 :"], 0) == Some(0)
  {
    var s := "md0 :";
    assert s[0] == 'm' && s[1] == 'd' && s[2] == '0' && s[3] == ' ' && s[4] == ':';
    assert FirstIn(s, {':'}) == 4;
    assert s[5..] == [] && s[..4] == "md0 ";
    assert Split(s[5..], {':'}) == [];
    assert Split(s, {':'}) == ["md0 "];
  }

  lemma {:induction false} SourceMetaPastEnd(lines: seq<string>, n: nat)
    requires forall j :: n + 1 <= j < |lines| ==> MatchMeta(lines[j]).Some?
    ensures SourceMeta(lines, n) == None
    decreases |lines| - n
  {
    if n + 1 < |lines| {
      SourceMetaPastEnd(lines, n + 1);
    }
  }

  /**
   * As written, a well-formed header whose block reaches the last line (no
   * trailer after it) reads lines[n + 1] past the end of the vector.
   */
  lemma SourceReadsPastEnd(lines: seq<string>, n: nat)
    requires n < |lines| && IsArrayHeader(lines[n]) && HeaderDevice(lines[n]).Some?
    requires forall j :: n + 2 <= j < |lines| ==> MatchMeta(lines[j]).Some?
    ensures SourceStep(lines, n) == None
  {
    if n + 1 < |lines| {
      SourceMetaPastEnd(lines, n + 1);
    }
  }

  lemma {:induction false} ReadMetaAgrees(lines: seq<string>, n: nat, d: MDDevice, m: nat)
    requires SourceMeta(lines, n) == Some(m)
    ensures ReadMeta(lines, n, d).1 == m
    decreases |lines| - n
  {
    if n + 1 < |lines| && MatchMeta(lines[n + 1]).Some? {
      var k := MatchMeta(lines[n + 1]).value;
      ReadMetaAgrees(lines, n + 1, WithMeta(d, k.0, k.1), m);
    }
  }

  /**
   * Wherever the source makes progress without reading out of range, the
   * corrected step moves the cursor to the same place.
   */
  lemma StepAgreesWithSource(lines: seq<string>, n: nat, p: Parsed)
    requires n < |lines| && SourceStep(lines, n).Some? && SourceStep(lines, n).value != n
    requires Step(lines, n, p).Done?
    ensures Step(lines, n, p).value.0 == SourceStep(lines, n).value
  {
    if IsArrayHeader(lines[n]) && HeaderDevice(lines[n]).Some? {
      var (d1, ok) := WithConfig(HeaderDevice(lines[n]).value, ConfigLine(lines, n));
      ReadMetaAgrees(lines, n + 1, d1, SourceMeta(lines, n + 1).value);
    }
  }
}
