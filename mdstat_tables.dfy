/**
 * The three row projections over a parsed /proc/mdstat snapshot:
 * md_devices (genMDDevices), md_drives (genMDDrives) and md_personalities
 * (genMDPersonalities). A row maps columns to text; the columns are a
 * datatype and ColumnName gives the name osquery publishes for each.
 */
module MdTables {
  import opened Text
  import opened MdStatParser

  /** The three progress lines handleR is applied to, by column prefix. */
  datatype Phase = Discovery | ResyncPhase | CheckArray

  /** The three columns handleR writes under a prefix. */
  datatype Part = ProgressPart | FinishPart | SpeedPart

  datatype Column =
    | DeviceName | Status | RaidLevel | HealthyDrives | UsableSize
    | PhaseColumn(phase: Phase, part: Part)
    | BitmapOnMem | BitmapChunkSize | BitmapExternalFile
    | UnusedDevices
    | MdDeviceName | DriveName | DriveStatus
    | PersonalityName

  type Row = map<Column, string>

  function PhasePrefix(p: Phase): string
  {
    match p
    case Discovery => "discovery"
    case ResyncPhase => "resync"
    case CheckArray => "check_array"
  }

  function PartSuffix(q: Part): string
  {
    match q
    case ProgressPart => "_progress"
    case FinishPart => "_finish"
    case SpeedPart => "_speed"
  }

  /** The column name under which osquery reports each column. */
  function ColumnName(c: Column): string
  {
    match c
    case DeviceName => "device_name"
    case Status => "status"
    case RaidLevel => "raid_level"
    case HealthyDrives => "healthy_drives"
    case UsableSize => "usable_size"
    case PhaseColumn(p, q) => PhasePrefix(p) + PartSuffix(q)
    case BitmapOnMem => "bitmap_on_mem"
    case BitmapChunkSize => "bitmap_chunk_size"
    case BitmapExternalFile => "bitmap_external_file"
    case UnusedDevices => "unused_devices"
    case MdDeviceName => "md_device_name"
    case DriveName => "drive_name"
    case DriveStatus => "status"
    case PersonalityName => "name"
  }

  // ---------------------------------------------------------------------
  // md_devices
  // ---------------------------------------------------------------------

  /** The characters find_first_not_of("finish=") and find_first_not_of("speed=") skip. */
  const FinishSet: set<char> := {'f', 'i', 'n', 's', 'h', '='}
  const SpeedSet: set<char> := {'s', 'p', 'e', 'd', '='}

  /**
   * The columns handleR writes for one progress line: none unless the line
   * splits into exactly four words.
   */
  function ProgressColumns(line: string, p: Phase): Row
  {
    var w := Split(line, {' '});
    if |w| != 4 then map[]
    else
      map[PhaseColumn(p, ProgressPart) := Trimmed(w[0], ' ') + " " + Trimmed(w[1], ' '),
          PhaseColumn(p, FinishPart) := DropLeadingSet(Trimmed(w[2], ' '), FinishSet),
          PhaseColumn(p, SpeedPart) := DropLeadingSet(Trimmed(w[3], ' '), SpeedSet)]
  }

  /**
   * handleR's promise: with four words w, the progress column is w0 + " " +
   * w1, and finish and speed are w2 and w3 with their leading run of
   * characters from "finish=" (resp. "speed=") removed, or the word itself
   * when it consists of those characters only; with any other word count no
   * column is written.
   */
  lemma ProgressColumnsSpec(line: string, p: Phase)
    ensures var w := Split(line, {' '});
      var m := ProgressColumns(line, p);
      && (|w| != 4 ==> m == map[])
      && (|w| == 4 ==>
            && m.Keys == {PhaseColumn(p, ProgressPart), PhaseColumn(p, FinishPart), PhaseColumn(p, SpeedPart)}
            && m[PhaseColumn(p, ProgressPart)] == w[0] + " " + w[1]
            && (AllIn(w[2], FinishSet) ==> m[PhaseColumn(p, FinishPart)] == w[2])
            && (!AllIn(w[2], FinishSet) ==>
                  exists k :: 0 <= k <= |w[2]| && AllIn(w[2][..k], FinishSet)
                              && w[2] == w[2][..k] + m[PhaseColumn(p, FinishPart)]
                              && m[PhaseColumn(p, FinishPart)][0] !in FinishSet)
            && (AllIn(w[3], SpeedSet) ==> m[PhaseColumn(p, SpeedPart)] == w[3])
            && (!AllIn(w[3], SpeedSet) ==>
                  exists k :: 0 <= k <= |w[3]| && AllIn(w[3][..k], SpeedSet)
                              && w[3] == w[3][..k] + m[PhaseColumn(p, SpeedPart)]
                              && m[PhaseColumn(p, SpeedPart)][0] !in SpeedSet))
  {
    var w := Split(line, {' '});
    if |w| == 4 {
      TrimmedWithout(w[0], ' ');
      TrimmedWithout(w[1], ' ');
      TrimmedWithout(w[2], ' ');
      TrimmedWithout(w[3], ' ');
    }
  }

  /** find_first_not_of(cs) and substr on a match, the word itself otherwise. */
  method DropLeading(word: string, cs: set<char>) returns (r: string)
    ensures r == DropLeadingSet(word, cs)
  {
    r := word;
    var start := FirstNotIn(word, cs);
    if start < |word| {
      r := word[start..];
    }
  }

  /** ProgressColumns in terms of the trimmed words and their stripped forms. */
  lemma ProgressColumnsFrom(line: string, p: Phase, t: seq<string>, finish: string, speed: string)
    requires |Split(line, {' '})| == 4 && t == TrimmedAll(Split(line, {' '}), ' ')
    requires finish == DropLeadingSet(t[2], FinishSet) && speed == DropLeadingSet(t[3], SpeedSet)
    ensures ProgressColumns(line, p) ==
            map[PhaseColumn(p, ProgressPart) := t[0] + " " + t[1], PhaseColumn(p, FinishPart) := finish,
                PhaseColumn(p, SpeedPart) := speed]
  {
  }

  /** handleR: write the progress, finish and speed columns of one progress line into r. */
  method HandleR(r: Row, line: string, p: Phase) returns (r': Row)
    ensures r' == r + ProgressColumns(line, p)
  {
    r' := r;
    var pieces := Split(line, {' '});
    if |pieces| != 4 {
      return;
    }
    pieces := TrimAll(pieces, ' ');
    var finish := DropLeading(pieces[2], FinishSet);
    var speed := DropLeading(pieces[3], SpeedSet);
    ProgressColumnsFrom(line, p, pieces, finish, speed);
    r' := r' + map[PhaseColumn(p, ProgressPart) := pieces[0] + " " + pieces[1],
                   PhaseColumn(p, FinishPart) := finish, PhaseColumn(p, SpeedPart) := speed];
  }

  /** The bitmap columns of one bitmap line. */
  function BitmapColumns(bitmap: string): Row
  {
    var segs := Split(bitmap, {','});
    if |segs| < 2 then map[]
    else
      var base := map[BitmapOnMem := Trimmed(segs[0], ' '), BitmapChunkSize := Trimmed(segs[1], ' ')];
      if |segs| > 2 then base + ExternalFile(Trimmed(segs[2], ' ')) else base
  }

  /** The external-file column of a trimmed third bitmap segment: the trimmed text after the first "file:". */
  function ExternalFile(seg: string): Row
  {
    match Find(seg, "file:")
    case None => map[]
    case Some(pos) => map[BitmapExternalFile := Trimmed(seg[pos + |"file:"|..], ' ')]
  }

  /**
   * With fewer than two comma-separated segments no bitmap column is set;
   * otherwise the first two trimmed segments are the in-memory pages and the
   * chunk size, and an external file is reported exactly when a third
   * segment contains "file:", as the trimmed text after its first
   * occurrence.
   */
  lemma BitmapColumnsSpec(bitmap: string)
    ensures var segs := Split(bitmap, {','});
      var m := BitmapColumns(bitmap);
      && (|segs| < 2 ==> m == map[])
      && (|segs| >= 2 ==>
            && m.Keys <= {BitmapOnMem, BitmapChunkSize, BitmapExternalFile}
            && m[BitmapOnMem] == Trimmed(segs[0], ' ')
            && m[BitmapChunkSize] == Trimmed(segs[1], ' ')
            && (BitmapExternalFile in m <==>
                  |segs| > 2 && exists k: nat :: OccursAt(Trimmed(segs[2], ' '), "file:", k))
            && (BitmapExternalFile in m ==>
                  exists k: nat :: && OccursAt(Trimmed(segs[2], ' '), "file:", k)
                              && (forall j :: 0 <= j < k ==> !OccursAt(Trimmed(segs[2], ' '), "file:", j))
                              && m[BitmapExternalFile] == Trimmed(Trimmed(segs[2], ' ')[k + 5..], ' ')))
  {
    var segs := Split(bitmap, {','});
    if |segs| > 2 {
      ExternalFileSpec(Trimmed(segs[2], ' '));
    }
  }

  /**
   * The external-file lookup sets its one column exactly when the segment
   * contains "file:", to the trimmed text after the first occurrence.
   */
  lemma ExternalFileSpec(seg: string)
    ensures ExternalFile(seg).Keys <= {BitmapExternalFile}
    ensures BitmapExternalFile in ExternalFile(seg) <==> exists k: nat :: OccursAt(seg, "file:", k)
    ensures BitmapExternalFile in ExternalFile(seg) ==>
              exists k: nat :: && OccursAt(seg, "file:", k)
                          && (forall j :: 0 <= j < k ==> !OccursAt(seg, "file:", j))
                          && ExternalFile(seg)[BitmapExternalFile] == Trimmed(seg[k + 5..], ' ')
  {
  }

  /** BitmapColumns in terms of the trimmed segments. */
  lemma BitmapColumnsFrom(bitmap: string, t: seq<string>)
    requires |Split(bitmap, {','})| >= 2 && t == TrimmedAll(Split(bitmap, {','}), ' ')
    ensures BitmapColumns(bitmap) ==
            map[BitmapOnMem := t[0], BitmapChunkSize := t[1]] + (if |t| > 2 then ExternalFile(t[2]) else map[])
  {
  }

  /** The bitmap branch of genMDDevices: write the bitmap columns of one bitmap line into r. */
  method HandleBitmap(r: Row, bitmap: string) returns (r': Row)
    ensures r' == r + BitmapColumns(bitmap)
  {
    r' := r;
    var bitmapInfos := Split(bitmap, {','});
    if |bitmapInfos| < 2 {
      return;
    }
    bitmapInfos := TrimAll(bitmapInfos, ' ');
    BitmapColumnsFrom(bitmap, bitmapInfos);
    var file: Row := map[];
    if |bitmapInfos| > 2 {
      file := ExternalFileColumn(bitmapInfos[2]);
    }
    r' := r' + (map[BitmapOnMem := bitmapInfos[0], BitmapChunkSize := bitmapInfos[1]] + file);
  }

  /** The "file:" lookup of the bitmap branch. */
  method ExternalFileColumn(seg: string) returns (m: Row)
    ensures m == ExternalFile(seg)
  {
    m := map[];
    var pos := Find(seg, "file:");
    if pos.Some? {
      var file := TrimStr(seg[pos.value + |"file:"|..], ' ');
      m := m[BitmapExternalFile := file];
    }
  }

  /** The md_devices row of one array: identity columns, progress and bitmap columns, the shared trailer. */
  function DeviceRow(d: MDDevice, unused: string): Row
  {
    var r0 := map[DeviceName := d.name, Status := d.status, RaidLevel := d.raidLevel,
                  HealthyDrives := d.healthyDrives, UsableSize := d.usableSize];
    var r4 := Overlay(Overlay(Overlay(Overlay(r0, ProgressColumns(d.recovery, Discovery), d.recovery != ""),
                                      ProgressColumns(d.resync, ResyncPhase), d.resync != ""),
                              ProgressColumns(d.checkArray, CheckArray), d.checkArray != ""),
                      BitmapColumns(d.bitmap), d.bitmap != "");
    r4[UnusedDevices := unused]
  }

  /** The columns handleR may write: those under its own prefix, and the progress one exactly with four words. */
  lemma ProgressKeys(line: string, p: Phase)
    ensures forall k :: k in ProgressColumns(line, p) ==> k.PhaseColumn? && k.phase == p
    ensures PhaseColumn(p, ProgressPart) in ProgressColumns(line, p) <==> |Split(line, {' '})| == 4
  {
  }

  /** The columns the bitmap branch may write. */
  lemma BitmapKeys(bitmap: string)
    ensures forall k :: k in BitmapColumns(bitmap) ==> k.BitmapOnMem? || k.BitmapChunkSize? || k.BitmapExternalFile?
    ensures BitmapOnMem in BitmapColumns(bitmap) <==> |Split(bitmap, {','})| >= 2
  {
  }

  /**
   * What one md_devices row holds: the array's name, status, RAID level,
   * healthy-drives ratio and usable size under their columns; the recovery
   * line under the "discovery" prefix, the resync line under "resync" and
   * the check line under "check_array", each exactly when the field is set
   * and splits into four words; bitmap columns exactly when the bitmap field
   * is set and has two comma segments; and the trailer text shared by all
   * rows.
   */
  lemma DeviceRowSpec(d: MDDevice, unused: string)
    ensures var r := DeviceRow(d, unused);
      && r[DeviceName] == d.name && r[Status] == d.status
      && r[RaidLevel] == d.raidLevel && r[HealthyDrives] == d.healthyDrives
      && r[UsableSize] == d.usableSize && r[UnusedDevices] == unused
      && (PhaseColumn(Discovery, ProgressPart) in r <==> d.recovery != "" && |Split(d.recovery, {' '})| == 4)
      && (PhaseColumn(ResyncPhase, ProgressPart) in r <==> d.resync != "" && |Split(d.resync, {' '})| == 4)
      && (PhaseColumn(CheckArray, ProgressPart) in r <==> d.checkArray != "" && |Split(d.checkArray, {' '})| == 4)
      && (BitmapOnMem in r <==> d.bitmap != "" && |Split(d.bitmap, {','})| >= 2)
  {
    ProgressKeys(d.recovery, Discovery);
    ProgressKeys(d.resync, ResyncPhase);
    ProgressKeys(d.checkArray, CheckArray);
    BitmapKeys(d.bitmap);
    var c1, c2, c3, c4 := ProgressColumns(d.recovery, Discovery), ProgressColumns(d.resync, ResyncPhase),
                          ProgressColumns(d.checkArray, CheckArray), BitmapColumns(d.bitmap);
    OverlaidIdentity(d, c1, c2, c3, c4, d.recovery != "", d.resync != "", d.checkArray != "", d.bitmap != "");
    OverlaidSections(map[DeviceName := d.name, Status := d.status, RaidLevel := d.raidLevel,
                         HealthyDrives := d.healthyDrives, UsableSize := d.usableSize],
                     c1, c2, c3, c4, d.recovery != "", d.resync != "", d.checkArray != "", d.bitmap != "");
  }

  /** Overlays the section c on r when the field it comes from is set. */
  function Overlay(r: Row, c: Row, on: bool): Row
  {
    if on then r + c else r
  }

  /** The identity columns survive the sections, none of which writes them. */
  lemma OverlaidIdentity(d: MDDevice, c1: Row, c2: Row, c3: Row, c4: Row, on1: bool, on2: bool, on3: bool, on4: bool)
    requires forall k :: k in c1 ==> k.PhaseColumn?
    requires forall k :: k in c2 ==> k.PhaseColumn?
    requires forall k :: k in c3 ==> k.PhaseColumn?
    requires forall k :: k in c4 ==> k.BitmapOnMem? || k.BitmapChunkSize? || k.BitmapExternalFile?
    ensures var r0 := map[DeviceName := d.name, Status := d.status, RaidLevel := d.raidLevel,
                          HealthyDrives := d.healthyDrives, UsableSize := d.usableSize];
      var r := Overlay(Overlay(Overlay(Overlay(r0, c1, on1), c2, on2), c3, on3), c4, on4);
      && r[DeviceName] == d.name && r[Status] == d.status
      && r[RaidLevel] == d.raidLevel && r[HealthyDrives] == d.healthyDrives
      && r[UsableSize] == d.usableSize
  {
  }

  /** Each section's progress column (and the bitmap's first column) is present exactly when that section is. */
  lemma OverlaidSections(r0: Row, c1: Row, c2: Row, c3: Row, c4: Row, on1: bool, on2: bool, on3: bool, on4: bool)
    requires forall k :: k in r0 ==> !k.PhaseColumn? && !k.BitmapOnMem?
    requires forall k :: k in c1 ==> k.PhaseColumn? && k.phase == Discovery
    requires forall k :: k in c2 ==> k.PhaseColumn? && k.phase == ResyncPhase
    requires forall k :: k in c3 ==> k.PhaseColumn? && k.phase == CheckArray
    requires forall k :: k in c4 ==> k.BitmapOnMem? || k.BitmapChunkSize? || k.BitmapExternalFile?
    ensures var r := Overlay(Overlay(Overlay(Overlay(r0, c1, on1), c2, on2), c3, on3), c4, on4);
      && (PhaseColumn(Discovery, ProgressPart) in r <==> on1 && PhaseColumn(Discovery, ProgressPart) in c1)
      && (PhaseColumn(ResyncPhase, ProgressPart) in r <==> on2 && PhaseColumn(ResyncPhase, ProgressPart) in c2)
      && (PhaseColumn(CheckArray, ProgressPart) in r <==> on3 && PhaseColumn(CheckArray, ProgressPart) in c3)
      && (BitmapOnMem in r <==> on4 && BitmapOnMem in c4)
  {
  }

  /** The body of genMDDevices' loop: the row of one array. */
  method BuildDeviceRow(device: MDDevice, unused: string) returns (r: Row)
    ensures r == DeviceRow(device, unused)
  {
    r := map[DeviceName := device.name, Status := device.status, RaidLevel := device.raidLevel,
             HealthyDrives := device.healthyDrives, UsableSize := device.usableSize];
    if device.recovery != "" {
      r := HandleR(r, device.recovery, Discovery);
    }
    if device.resync != "" {
      r := HandleR(r, device.resync, ResyncPhase);
    }
    if device.checkArray != "" {
      r := HandleR(r, device.checkArray, CheckArray);
    }
    if device.bitmap != "" {
      r := HandleBitmap(r, device.bitmap);
    }
    r := r[UnusedDevices := unused];
  }

  /** genMDDevices: one row per array, in the order of the snapshot. */
  method GenMDDevices(mds: MDStat) returns (rows: seq<Row>)
    ensures |rows| == |mds.devices|
    ensures forall i :: 0 <= i < |rows| ==> rows[i] == DeviceRow(mds.devices[i], mds.unused)
  {
    rows := [];
    for i := 0 to |mds.devices|
      invariant |rows| == i
      invariant forall k :: 0 <= k < i ==> rows[k] == DeviceRow(mds.devices[k], mds.unused)
    {
      var r := BuildDeviceRow(mds.devices[i], mds.unused);
      rows := rows + [r];
    }
  }

  // ---------------------------------------------------------------------
  // md_drives
  // ---------------------------------------------------------------------

  /**
   * The text between the first '[' and the first ']' of a member token, as
   * substr(start + 1, end - start - 1) reads it: up to the ']' when it comes
   * after the '[', the whole rest (the count wraps round) when it comes
   * before. None when either bracket is missing.
   */
  function SlotText(drive: string): (r: Option<string>)
    ensures r.None? <==> '[' !in drive || ']' !in drive
  {
    var start := FirstIn(drive, {'['});
    var end := FirstIn(drive, {']'});
    if start == |drive| || end == |drive| then None
    else Some(if end > start then drive[start + 1..end] else drive[start + 1..])
  }

  /** The corrected slot guard: the slot names a character between the brackets of "[UU_]". */
  predicate SlotInRange(slot: int, statuses: string)
  {
    0 <= slot < |statuses| - 2
  }

  /**
   * The md_drives row of one member token: none for a token without both
   * brackets, an exception when the slot text is not a number stoi accepts,
   * otherwise the array's and the member's names and, for a slot within the
   * status string, "1" when the member's status character is 'U' and "0"
   * otherwise.
   */
  function DriveRow(d: MDDevice, drive: string): Outcome<Option<Row>>
  {
    match SlotText(drive)
    case None => Done(None)
    case Some(text) =>
      match Stoi(text)
      case None => Thrown(text)
      case Some(slot) =>
        var row := map[MdDeviceName := d.name, DriveName := drive];
        if SlotInRange(slot, d.driveStatuses) then
          Done(Some(row[DriveStatus := if d.driveStatuses[slot + 1] == 'U' then "1" else "0"]))
        else Done(Some(row))
  }

  /** What DriveRow promises about one member token. */
  lemma DriveRowSpec(d: MDDevice, drive: string)
    ensures var r := DriveRow(d, drive);
      && (r == Done(None) <==> '[' !in drive || ']' !in drive)
      && (r.Thrown? <==> SlotText(drive).Some? && Stoi(SlotText(drive).value).None?)
      && (r.Done? && r.value.Some? ==>
            var row := r.value.value;
            var slot := Stoi(SlotText(drive).value).value;
            && row.Keys <= {MdDeviceName, DriveName, DriveStatus}
            && MdDeviceName in row && row[MdDeviceName] == d.name
            && DriveName in row && row[DriveName] == drive
            && (DriveStatus in row <==> SlotInRange(slot, d.driveStatuses))
            && (DriveStatus in row ==> (row[DriveStatus] == "1" <==> d.driveStatuses[slot + 1] == 'U'))
            && (DriveStatus in row ==> row[DriveStatus] in {"0", "1"}))
  {
  }

  /** The slot text of a token name[digits]flags is the digits. */
  lemma SlotTextOfMember(name: string, digits: string, flags: string)
    requires '[' !in name && ']' !in name && AllIn(digits, Digits)
    ensures SlotText(name + "[" + digits + "]" + flags) == Some(digits)
  {
    var drive := name + "[" + digits + "]" + flags;
    var open, close := |name|, |name| + 1 + |digits|;
    assert drive[..open] == name;
    assert drive[open + 1..close] == digits;
    assert drive[open] == '[' && drive[close] == ']';
    FirstInAt(drive, {'['}, open);
    assert NoneIn(drive[..close], {']'}) by {
      assert drive[..close] == name + "[" + digits;
      assert forall k :: 0 <= k < |digits| ==> digits[k] in Digits;
    }
    FirstInAt(drive, {']'}, close);
  }

  /**
   * A member token as the kernel writes it, a name, its slot in brackets and
   * optional flags such as "(F)", yields a row whose status is read from
   * that slot of a status string "[" + s + "]".
   */
  lemma DriveRowOfMember(d: MDDevice, name: string, slot: nat, flags: string, s: string)
    requires '[' !in name && ']' !in name && slot <= IntMax
    requires d.driveStatuses == "[" + s + "]"
    ensures var r := DriveRow(d, name + "[" + Decimal(slot) + "]" + flags);
      && r.Done? && r.value.Some?
      && r.value.value[DriveName] == name + "[" + Decimal(slot) + "]" + flags
      && (DriveStatus in r.value.value <==> slot < |s|)
      && (slot < |s| ==> (r.value.value[DriveStatus] == "1" <==> s[slot] == 'U'))
  {
    SlotTextOfMember(name, Decimal(slot), flags);
    StoiDecimal(slot);
    if slot < |s| {
      assert d.driveStatuses[slot + 1] == s[slot];
    }
  }

  /** The outcome of every member token of d, in order. */
  function MemberRows(d: MDDevice): (r: seq<Outcome<Option<Row>>>)
    ensures |r| == |d.drives| && forall m :: 0 <= m < |r| ==> r[m] == DriveRow(d, d.drives[m])
  {
    seq(|d.drives|, m requires 0 <= m < |d.drives| => DriveRow(d, d.drives[m]))
  }

  /** The member outcomes of every array, in order. */
  function ArrayMemberRows(ds: seq<MDDevice>): (r: seq<seq<Outcome<Option<Row>>>>)
    ensures |r| == |ds| && forall i :: 0 <= i < |r| ==> r[i] == MemberRows(ds[i])
  {
    seq(|ds|, i requires 0 <= i < |ds| => MemberRows(ds[i]))
  }

  /** The rows of outs[j..] appended to acc; the first exception ends the walk. */
  function Collect(outs: seq<Outcome<Option<Row>>>, j: nat, acc: seq<Row>): Outcome<seq<Row>>
    requires j <= |outs|
    decreases |outs| - j
  {
    if j == |outs| then Done(acc)
    else
      match outs[j]
      case Thrown(t) => Thrown(t)
      case Done(None) => Collect(outs, j + 1, acc)
      case Done(Some(row)) => Collect(outs, j + 1, acc + [row])
  }

  /** The rows of outss[i..], array after array, appended to acc. */
  function CollectAll(outss: seq<seq<Outcome<Option<Row>>>>, i: nat, acc: seq<Row>): Outcome<seq<Row>>
    requires i <= |outss|
    decreases |outss| - i
  {
    if i == |outss| then Done(acc)
    else
      match Collect(outss[i], 0, acc)
      case Thrown(t) => Thrown(t)
      case Done(acc') => CollectAll(outss, i + 1, acc')
  }

  /** The md_drives table of a snapshot. */
  function DriveRows(mds: MDStat): Outcome<seq<Row>>
  {
    CollectAll(ArrayMemberRows(mds.devices), 0, [])
  }

  /** The number of rows (and exceptions) among outs[j..m]. */
  function Between(outs: seq<Outcome<Option<Row>>>, j: nat, m: nat): nat
    requires j <= m <= |outs|
    decreases m - j
  {
    if j == m then 0 else (if outs[j] != Done(None) then 1 else 0) + Between(outs, j + 1, m)
  }

  /** The number of rows in outs[j..]. */
  function Produced(outs: seq<Outcome<Option<Row>>>, j: nat): nat
    requires j <= |outs|
  {
    Between(outs, j, |outs|)
  }

  /** The number of rows of the arrays outss[i..a]. */
  function BetweenAll(outss: seq<seq<Outcome<Option<Row>>>>, i: nat, a: nat): nat
    requires i <= a <= |outss|
    decreases a - i
  {
    if i == a then 0 else Produced(outss[i], 0) + BetweenAll(outss, i + 1, a)
  }

  function ProducedAll(outss: seq<seq<Outcome<Option<Row>>>>, i: nat): nat
    requires i <= |outss|
  {
    BetweenAll(outss, i, |outss|)
  }

  /**
   * Collecting outs[j..] throws exactly when one of them is an exception;
   * otherwise it appends one row per row-producing outcome, each row taken
   * from one of them.
   */
  lemma {:induction false} CollectSpec(outs: seq<Outcome<Option<Row>>>, j: nat, acc: seq<Row>)
    requires j <= |outs|
    ensures var r := Collect(outs, j, acc);
      && (r.Thrown? <==> exists m :: j <= m < |outs| && outs[m].Thrown?)
      && (r.Done? ==>
            && |r.value| == |acc| + Produced(outs, j)
            && r.value[..|acc|] == acc
            && forall k :: |acc| <= k < |r.value| ==> exists m :: j <= m < |outs| && outs[m] == Done(Some(r.value[k])))
    decreases |outs| - j
  {
    if j < |outs| && outs[j].Done? {
      var acc' := if outs[j].value.Some? then acc + [outs[j].value.value] else acc;
      CollectSpec(outs, j + 1, acc');
      var r := Collect(outs, j + 1, acc');
      assert Collect(outs, j, acc) == r;
      assert (exists m :: j <= m < |outs| && outs[m].Thrown?) <==> (exists m :: j + 1 <= m < |outs| && outs[m].Thrown?);
      if r.Done? {
        assert r.value[..|acc|] == acc by {
          assert r.value[..|acc'|][..|acc|] == acc'[..|acc|];
        }
        forall k | |acc| <= k < |r.value|
          ensures exists m :: j <= m < |outs| && outs[m] == Done(Some(r.value[k]))
        {
          if k < |acc'| {
            assert r.value[k] == r.value[..|acc'|][k] == outs[j].value.value;
            assert outs[j] == Done(Some(r.value[k]));
          } else {
            var m :| j + 1 <= m < |outs| && outs[m] == Done(Some(r.value[k]));
          }
        }
      }
    } else if j < |outs| {
      assert outs[j].Thrown?;
    }
  }

  /** CollectSpec lifted to a sequence of arrays. */
  lemma {:induction false} CollectAllSpec(outss: seq<seq<Outcome<Option<Row>>>>, i: nat, acc: seq<Row>)
    requires i <= |outss|
    ensures var r := CollectAll(outss, i, acc);
      && (r.Thrown? <==> exists a, m :: i <= a < |outss| && 0 <= m < |outss[a]| && outss[a][m].Thrown?)
      && (r.Done? ==>
            && |r.value| == |acc| + ProducedAll(outss, i)
            && r.value[..|acc|] == acc
            && forall k :: |acc| <= k < |r.value| ==>
                 exists a, m :: i <= a < |outss| && 0 <= m < |outss[a]| && outss[a][m] == Done(Some(r.value[k])))
    decreases |outss| - i
  {
    if i < |outss| {
      CollectSpec(outss[i], 0, acc);
      var here := Collect(outss[i], 0, acc);
      if here.Thrown? {
        var m :| 0 <= m < |outss[i]| && outss[i][m].Thrown?;
      } else {
        CollectAllSpec(outss, i + 1, here.value);
        var r := CollectAll(outss, i + 1, here.value);
        assert CollectAll(outss, i, acc) == r;
        if r.Done? {
          assert r.value[..|acc|] == acc by {
            assert r.value[..|here.value|][..|acc|] == here.value[..|acc|];
          }
          forall k | |acc| <= k < |r.value|
            ensures exists a, m :: i <= a < |outss| && 0 <= m < |outss[a]| && outss[a][m] == Done(Some(r.value[k]))
          {
            if k < |here.value| {
              assert r.value[k] == r.value[..|here.value|][k];
              var m :| 0 <= m < |outss[i]| && outss[i][m] == Done(Some(here.value[k]));
            }
          }
        }
      }
    }
  }

  /** Collecting only appends to what is already collected. */
  lemma {:induction false} CollectKeeps(outs: seq<Outcome<Option<Row>>>, j: nat, acc: seq<Row>)
    requires j <= |outs|
    ensures Collect(outs, j, acc).Done? ==> acc <= Collect(outs, j, acc).value
    decreases |outs| - j
  {
    if j < |outs| && outs[j].Done? {
      var acc' := if outs[j].value.Some? then acc + [outs[j].value.value] else acc;
      CollectKeeps(outs, j + 1, acc');
    }
  }

  /** Collecting without an exception adds exactly Produced rows. */
  lemma {:induction false} CollectCount(outs: seq<Outcome<Option<Row>>>, j: nat, acc: seq<Row>)
    requires j <= |outs|
    ensures Collect(outs, j, acc).Done? ==> |Collect(outs, j, acc).value| == |acc| + Produced(outs, j)
    decreases |outs| - j
  {
    if j < |outs| && outs[j].Done? {
      var acc' := if outs[j].value.Some? then acc + [outs[j].value.value] else acc;
      CollectCount(outs, j + 1, acc');
    }
  }

  lemma {:induction false} CollectAllKeeps(outss: seq<seq<Outcome<Option<Row>>>>, i: nat, acc: seq<Row>)
    requires i <= |outss|
    ensures CollectAll(outss, i, acc).Done? ==> acc <= CollectAll(outss, i, acc).value
    decreases |outss| - i
  {
    if i < |outss| {
      CollectKeeps(outss[i], 0, acc);
      var here := Collect(outss[i], 0, acc);
      if here.Done? {
        CollectAllKeeps(outss, i + 1, here.value);
      }
    }
  }

  /**
   * Each row-producing outcome among outs[j..] puts its row at the position
   * after acc and the rows of the outcomes before it: the rows keep the
   * order of the outcomes, one row each.
   */
  lemma {:induction false} CollectOrder(outs: seq<Outcome<Option<Row>>>, j: nat, acc: seq<Row>)
    requires j <= |outs|
    ensures var r := Collect(outs, j, acc);
      r.Done? ==>
        forall m :: j <= m < |outs| && outs[m].Done? && outs[m].value.Some? ==>
          && |acc| + Between(outs, j, m) < |r.value|
          && r.value[|acc| + Between(outs, j, m)] == outs[m].value.value
    decreases |outs| - j
  {
    if j < |outs| && outs[j].Done? {
      var acc' := if outs[j].value.Some? then acc + [outs[j].value.value] else acc;
      CollectOrder(outs, j + 1, acc');
      CollectKeeps(outs, j + 1, acc');
      var r := Collect(outs, j + 1, acc');
      assert Collect(outs, j, acc) == r;
      if r.Done? {
        forall m | j <= m < |outs| && outs[m].Done? && outs[m].value.Some?
          ensures && |acc| + Between(outs, j, m) < |r.value|
                  && r.value[|acc| + Between(outs, j, m)] == outs[m].value.value
        {
          if m == j {
            assert r.value[|acc|] == acc'[|acc|];
          } else {
            assert Between(outs, j, m) == |acc'| - |acc| + Between(outs, j + 1, m);
          }
        }
      }
    }
  }

  /** CollectOrder lifted to a sequence of arrays: the rows of earlier arrays come first. */
  lemma {:induction false} CollectAllOrder(outss: seq<seq<Outcome<Option<Row>>>>, i: nat, acc: seq<Row>)
    requires i <= |outss|
    ensures var r := CollectAll(outss, i, acc);
      r.Done? ==>
        forall a, m :: i <= a < |outss| && 0 <= m < |outss[a]| && outss[a][m].Done? && outss[a][m].value.Some? ==>
          && |acc| + BetweenAll(outss, i, a) + Between(outss[a], 0, m) < |r.value|
          && r.value[|acc| + BetweenAll(outss, i, a) + Between(outss[a], 0, m)] == outss[a][m].value.value
    decreases |outss| - i
  {
    if i < |outss| {
      CollectKeeps(outss[i], 0, acc);
      CollectCount(outss[i], 0, acc);
      CollectOrder(outss[i], 0, acc);
      var here := Collect(outss[i], 0, acc);
      if here.Done? {
        CollectAllOrder(outss, i + 1, here.value);
        CollectAllKeeps(outss, i + 1, here.value);
        var r := CollectAll(outss, i + 1, here.value);
        assert CollectAll(outss, i, acc) == r;
        if r.Done? {
          forall a, m | i <= a < |outss| && 0 <= m < |outss[a]| && outss[a][m].Done? && outss[a][m].value.Some?
            ensures && |acc| + BetweenAll(outss, i, a) + Between(outss[a], 0, m) < |r.value|
                    && r.value[|acc| + BetweenAll(outss, i, a) + Between(outss[a], 0, m)] == outss[a][m].value.value
          {
            if a == i {
              var k := |acc| + Between(outss[i], 0, m);
              assert r.value[k] == here.value[k];
            } else {
              assert BetweenAll(outss, i, a) == Produced(outss[i], 0) + BetweenAll(outss, i + 1, a);
            }
          }
        }
      }
    }
  }

  /** Where the row of member m of array i lands: after the rows of every earlier member. */
  function RowIndex(mds: MDStat, i: nat, m: nat): nat
    requires i < |mds.devices| && m <= |mds.devices[i].drives|
  {
    var outss := ArrayMemberRows(mds.devices);
    BetweenAll(outss, 0, i) + Between(outss[i], 0, m)
  }

  /** Rows are counted in order: a later window holds at least the rows of an earlier one, and one more past a row. */
  lemma {:induction false} BetweenSplit(outs: seq<Outcome<Option<Row>>>, j: nat, m: nat, n: nat)
    requires j <= m <= n <= |outs|
    ensures Between(outs, j, n) == Between(outs, j, m) + Between(outs, m, n)
    decreases m - j
  {
    if j < m {
      BetweenSplit(outs, j + 1, m, n);
    }
  }

  lemma {:induction false} BetweenAllSplit(outss: seq<seq<Outcome<Option<Row>>>>, i: nat, a: nat, b: nat)
    requires i <= a <= b <= |outss|
    ensures BetweenAll(outss, i, b) == BetweenAll(outss, i, a) + BetweenAll(outss, a, b)
    decreases a - i
  {
    if i < a {
      BetweenAllSplit(outss, i + 1, a, b);
    }
  }

  /**
   * A member that yields a row lands strictly before every later member,
   * in the same array or a later one: distinct members get distinct rows,
   * in the order genMDDrives meets them.
   */
  lemma RowIndexIncreasing(mds: MDStat, i: nat, m: nat, i': nat, m': nat)
    requires i < |mds.devices| && m < |mds.devices[i].drives|
    requires i' < |mds.devices| && m' <= |mds.devices[i'].drives|
    requires i < i' || (i == i' && m < m')
    requires DriveRow(mds.devices[i], mds.devices[i].drives[m]) != Done(None)
    ensures RowIndex(mds, i, m) < RowIndex(mds, i', m')
  {
    var outss := ArrayMemberRows(mds.devices);
    var outs := MemberRows(mds.devices[i]);
    assert outss[i] == outs;
    var end := if i == i' then m' else |outs|;
    BetweenSplit(outs, 0, m, end);
    assert Between(outs, m, end) >= 1;
    if i < i' {
      BetweenAllSplit(outss, 0, i, i');
      assert BetweenAll(outss, i, i') >= Produced(outs, 0);
    }
  }

  /**
   * The md_drives table either throws, exactly when some array has a member
   * whose slot text stoi refuses, or holds one row per bracketed member of
   * every array, in order, each the row DriveRow gives that member.
   */
  lemma DriveRowsSpec(mds: MDStat)
    ensures var r := DriveRows(mds);
      && (r.Thrown? <==>
            exists i, m :: 0 <= i < |mds.devices| && 0 <= m < |mds.devices[i].drives|
                           && DriveRow(mds.devices[i], mds.devices[i].drives[m]).Thrown?)
      && (r.Done? ==>
            && |r.value| == ProducedAll(ArrayMemberRows(mds.devices), 0)
            && forall k :: 0 <= k < |r.value| ==>
                 exists i, m :: 0 <= i < |mds.devices| && 0 <= m < |mds.devices[i].drives|
                                && DriveRow(mds.devices[i], mds.devices[i].drives[m]) == Done(Some(r.value[k])))
  {
    var outss := ArrayMemberRows(mds.devices);
    CollectAllSpec(outss, 0, []);
    var r := DriveRows(mds);
    if r.Thrown? {
      var a, m :| 0 <= a < |outss| && 0 <= m < |outss[a]| && outss[a][m].Thrown?;
      assert outss[a] == MemberRows(mds.devices[a]);
      assert DriveRow(mds.devices[a], mds.devices[a].drives[m]).Thrown?;
    }
    if r.Done? {
      forall k | 0 <= k < |r.value|
        ensures exists i, m :: 0 <= i < |mds.devices| && 0 <= m < |mds.devices[i].drives|
                               && DriveRow(mds.devices[i], mds.devices[i].drives[m]) == Done(Some(r.value[k]))
      {
        var a, m :| 0 <= a < |outss| && 0 <= m < |outss[a]| && outss[a][m] == Done(Some(r.value[k]));
        assert outss[a] == MemberRows(mds.devices[a]);
        assert DriveRow(mds.devices[a], mds.devices[a].drives[m]) == Done(Some(r.value[k]));
      }
    }
  }

  /**
   * The row of a bracketed member whose slot text stoi accepts sits at
   * RowIndex: after the rows of the members before it, array by array and
   * member by member. With RowIndexIncreasing and DriveRowsSpec's count,
   * the table is exactly the members' rows, one each, in order.
   */
  lemma DriveRowsOrder(mds: MDStat, i: nat, m: nat)
    requires i < |mds.devices| && m < |mds.devices[i].drives|
    ensures var r := DriveRows(mds);
      var o := DriveRow(mds.devices[i], mds.devices[i].drives[m]);
      r.Done? && o.Done? && o.value.Some? ==>
        && RowIndex(mds, i, m) < |r.value|
        && r.value[RowIndex(mds, i, m)] == o.value.value
  {
    MemberRowAt(mds, i, m);
    CollectAllAt(ArrayMemberRows(mds.devices), i, m, DriveRows(mds),
                 DriveRow(mds.devices[i], mds.devices[i].drives[m]), RowIndex(mds, i, m));
  }

  /** CollectAllOrder from the first array on, for the outcome o at position k. */
  lemma CollectAllAt(outss: seq<seq<Outcome<Option<Row>>>>, a: nat, m: nat,
                     r: Outcome<seq<Row>>, o: Outcome<Option<Row>>, k: nat)
    requires a < |outss| && m < |outss[a]|
    requires r == CollectAll(outss, 0, []) && o == outss[a][m]
    requires k == BetweenAll(outss, 0, a) + Between(outss[a], 0, m)
    ensures r.Done? && o.Done? && o.value.Some? ==> k < |r.value| && r.value[k] == o.value.value
  {
    CollectAllOrder(outss, 0, []);
  }

  /** Member m of array i's outcome in the per-array outcome lists. */
  lemma MemberRowAt(mds: MDStat, i: nat, m: nat)
    requires i < |mds.devices| && m < |mds.devices[i].drives|
    ensures i < |ArrayMemberRows(mds.devices)| && m < |ArrayMemberRows(mds.devices)[i]|
    ensures ArrayMemberRows(mds.devices)[i][m] == DriveRow(mds.devices[i], mds.devices[i].drives[m])
    ensures DriveRows(mds) == CollectAll(ArrayMemberRows(mds.devices), 0, [])
    ensures RowIndex(mds, i, m) == BetweenAll(ArrayMemberRows(mds.devices), 0, i) + Between(ArrayMemberRows(mds.devices)[i], 0, m)
  {
  }

  /** genMDDrives: every bracketed member of every array, in order. */
  method GenMDDrives(mds: MDStat) returns (r: Outcome<seq<Row>>)
    ensures r == DriveRows(mds)
  {
    ghost var outss := ArrayMemberRows(mds.devices);
    var results: seq<Row> := [];
    for i := 0 to |mds.devices|
      invariant CollectAll(outss, i, results) == DriveRows(mds)
    {
      var device := mds.devices[i];
      ghost var before := results;
      for j := 0 to |device.drives|
        invariant Collect(outss[i], j, results) == Collect(outss[i], 0, before)
      {
        var row := DriveRowOf(device, device.drives[j]);
        match row {
          case Thrown(t) =>
            return Thrown(t);
          case Done(None) =>
          case Done(Some(x)) =>
            results := results + [x];
        }
      }
    }
    return Done(results);
  }

  /** The two find calls and the substr of genMDDrives' inner loop. */
  method FindSlot(drive: string) returns (text: Option<string>)
    ensures text == SlotText(drive)
  {
    var start := FirstIn(drive, {'['});
    if start == |drive| {
      return None;
    }
    var end := FirstIn(drive, {']'});
    if end == |drive| {
      return None;
    }
    text := Some(if end > start then drive[start + 1..end] else drive[start + 1..]);
  }

  /** The body of genMDDrives' inner loop: one member token. */
  method DriveRowOf(device: MDDevice, drive: string) returns (r: Outcome<Option<Row>>)
    ensures r == DriveRow(device, drive)
  {
    var text := FindSlot(drive);
    if text.None? {
      return Done(None);
    }
    var driveNum := Stoi(text.value);
    if driveNum.None? {
      return Thrown(text.value);
    }
    var row := map[MdDeviceName := device.name, DriveName := drive];
    if 0 <= driveNum.value < |device.driveStatuses| - 2 {
      row := row[DriveStatus := if device.driveStatuses[driveNum.value + 1] == 'U' then "1" else "0"];
    }
    return Done(Some(row));
  }

  /**
   * The guard of genMDDrives as C++ evaluates it: `0 <= driveNum` yields a
   * bool, 0 or 1, which is then compared with the unsigned, wrapping
   * length - 2 of the status string.
   */
  function SourceSlotGuard(slot: int, statuses: string): bool
  {
    (if 0 <= slot then 1 else 0) < (|statuses| - 2) % 0x1_0000_0000_0000_0000
  }

  /**
   * As written the guard lets through a slot past the end of "[UU]" (whose
   * status character would be read from beyond the string), a negative slot
   * (whose character is the opening '['), and in fact every non-negative
   * slot once two status characters are present. On the one-slot status
   * "[U]" of a single-disk array it refuses the one valid slot, 0, since
   * 1 < 1 fails, and still admits -1.
   */
  lemma SourceSlotGuardAdmitsOutOfRange()
    ensures SourceSlotGuard(5, "[UU]") && !SlotInRange(5, "[UU]") && 5 + 1 >= |"[UU]"|
    ensures SourceSlotGuard(-1, "[UU]") && !SlotInRange(-1, "[UU]") && "[UU]"[-1 + 1] == '['
    ensures forall slot: int, statuses: string :: 0 <= slot && 4 <= |statuses| < 0x1_0000_0000_0000_0000 ==> SourceSlotGuard(slot, statuses)
    ensures !SourceSlotGuard(0, "[U]") && SlotInRange(0, "[U]")
    ensures SourceSlotGuard(-1, "[U]") && !SlotInRange(-1, "[U]")
  {
  }

  /**
   * The corrected guard admits exactly the slots of a status string
   * "[" + s + "]", and the character it then reads is that slot's status.
   */
  lemma SlotInRangeReadsStatus(slot: int, s: string)
    ensures SlotInRange(slot, "[" + s + "]") <==> 0 <= slot < |s|
    ensures SlotInRange(slot, "[" + s + "]") ==> ("[" + s + "]")[slot + 1] == s[slot]
  {
  }

  // ---------------------------------------------------------------------
  // md_personalities
  // ---------------------------------------------------------------------

  /**
   * substr(1, length - 2) of a personality token: the text between its first
   * and last character; a one-character token gives the empty name (the
   * count wraps round and substr stops at the end).
   */
  function StripBrackets(setting: string): string
    requires setting != []
  {
    if |setting| >= 2 then setting[1..|setting| - 1] else []
  }

  /**
   * The md_personalities table: one row per space-separated word of the
   * personalities text, named by the word without its first and last
   * character. Trimming a word split on spaces changes nothing, so the word
   * is used as it stands.
   */
  function PersonalityRows(personalities: string): (rows: seq<Row>)
    ensures |rows| == |Split(personalities, {' '})|
    ensures forall k :: 0 <= k < |rows| ==>
              var w := Split(personalities, {' '})[k];
              && rows[k].Keys == {PersonalityName}
              && (|w| >= 2 ==> w == [w[0]] + rows[k][PersonalityName] + [w[|w| - 1]])
              && (|w| < 2 ==> rows[k][PersonalityName] == [])
  {
    var w := Split(personalities, {' '});
    seq(|w|, k requires 0 <= k < |w| => map[PersonalityName := StripBrackets(w[k])])
  }

  /** The personalities text as the kernel writes it: each name in brackets, each preceded by a space. */
  function PersonalitiesText(names: seq<string>): string
  {
    " " + Join(seq(|names|, k requires 0 <= k < |names| => "[" + names[k] + "]"), ' ')
  }

  /** Reading the kernel's personalities text back gives the names, in order. */
  lemma PersonalitiesRoundTrip(names: seq<string>)
    requires forall k :: 0 <= k < |names| ==> ' ' !in names[k]
    ensures var rows := PersonalityRows(PersonalitiesText(names));
      |rows| == |names| && forall k :: 0 <= k < |names| ==> rows[k][PersonalityName] == names[k]
  {
    var tokens := seq(|names|, k requires 0 <= k < |names| => "[" + names[k] + "]");
    var joined := Join(tokens, ' ');
    forall k | 0 <= k < |tokens| ensures tokens[k] != [] && NoneIn(tokens[k], {' '}) {
      forall c | 0 <= c < |tokens[k]| ensures tokens[k][c] !in {' '} {
        if 0 < c < |tokens[k]| - 1 {
          assert tokens[k][c] == names[k][c - 1];
        }
      }
    }
    SplitJoin(tokens, ' ');
    assert (" " + joined)[1..] == joined;
    assert Split(" " + joined, {' '}) == Split(joined, {' '});
    forall k | 0 <= k < |names| ensures StripBrackets(tokens[k]) == names[k] {
      assert tokens[k][1..|tokens[k]| - 1] == names[k];
    }
  }

  /** genMDPersonalities: split the personalities text on spaces, trim each word and strip its brackets. */
  method GenMDPersonalities(mds: MDStat) returns (rows: seq<Row>)
    ensures rows == PersonalityRows(mds.personalities)
  {
    var enabledPersonalities := Split(mds.personalities, {' '});
    rows := [];
    for k := 0 to |enabledPersonalities|
      invariant |rows| == k
      invariant forall i :: 0 <= i < k ==> rows[i] == map[PersonalityName := StripBrackets(enabledPersonalities[i])]
    {
      var setting := TrimStr(enabledPersonalities[k], ' ');
      TrimmedWithout(enabledPersonalities[k], ' ');
      var name := if |setting| >= 2 then setting[1..|setting| - 1] else [];
      rows := rows + [map[PersonalityName := name]];
    }
  }
}
