/** The live-process side of the memory forensics: reading the memory map
    of a process (as the lines of its `/proc/<pid>/maps` file), classifying
    each mapped region by simulacra order, and the rule that decides
    whether a process looks hollowed from its executable link and command
    line. The file reads themselves are inputs here. */
module ProcessMemoryForensics {
  import opened Wrappers
  import opened Text

  // ---------------------------------------------------------------------
  // Region classification

  datatype Threat = NoThreat | Medium | High

  datatype RegionLabel =
    | ExecutableWritable
    | AnonymousCode
    | PhantomMapping
    | AuthenticRegion
    | FileBacked

  /** The classification attached to a region; the source's free-text
      description is left out. */
  datatype RegionClass = RegionClass(order: nat, category: RegionLabel, threat: Threat)

  /** The pathname given to a mapping whose line has no sixth field. */
  const Anonymous: string := "[anonymous]"

  /** The marker the kernel appends to the path of a deleted file. */
  const Deleted: string := "(deleted)"

  /** The first-match-wins classifier; `ClassifyRegionSpec` states what
      it decides. */
  function ClassifyRegion(perms: string, pathname: string, size: int): RegionClass {
    if Contains(perms, "rwx") then RegionClass(3, ExecutableWritable, High)
    else if Contains(perms, "x") && pathname == Anonymous then RegionClass(2, AnonymousCode, Medium)
    else if Contains(pathname, Deleted) then RegionClass(3, PhantomMapping, Medium)
    else if pathname == "[stack]" || pathname == "[heap]" then RegionClass(1, AuthenticRegion, NoThreat)
    else RegionClass(1, FileBacked, NoThreat)
  }

  /** Writable code is an executable writable region of order 3 and a
      high threat whatever it maps (so a writable, executable heap is
      never authentic), anonymous code is order 2, a mapped deleted file a
      phantom mapping of order 3, and everything else order 1 with no
      threat: authentic for stack and heap, file-backed otherwise. */
  lemma ClassifyRegionSpec(perms: string, pathname: string, size: int)
    ensures var c := ClassifyRegion(perms, pathname, size);
            && 1 <= c.order <= 3
            && (c.order == 3 <==> Contains(perms, "rwx") || Contains(pathname, Deleted))
            && (c.order == 2 <==> !Contains(perms, "rwx") && Contains(perms, "x") && pathname == Anonymous)
            && (c.threat == NoThreat <==> c.order == 1)
            && (c.threat == High <==> Contains(perms, "rwx"))
            && (c.category == ExecutableWritable <==> Contains(perms, "rwx"))
            && (c.category == AnonymousCode <==> c.order == 2)
            && (c.category == PhantomMapping <==> !Contains(perms, "rwx") && Contains(pathname, Deleted))
            && (c.category == AuthenticRegion <==> c.order == 1 && (pathname == "[stack]" || pathname == "[heap]"))
            && (c.category == FileBacked <==> c.order == 1 && pathname != "[stack]" && pathname != "[heap]")
  {
    if !Contains(perms, "rwx") && Contains(perms, "x") && pathname == Anonymous {
      NotContainedWithoutFirst(Anonymous, Deleted);
    }
  }

  /** Two regions that differ only in size are classified alike. */
  lemma ClassifyRegionIgnoresSize(perms: string, pathname: string, size1: int, size2: int)
    ensures ClassifyRegion(perms, pathname, size1) == ClassifyRegion(perms, pathname, size2)
  {
  }

  // ---------------------------------------------------------------------
  // Reading the memory map

  /** One mapped region as reported: the addresses as the line wrote them
      with a "0x" prefix, the size in bytes (negative if the end address is
      below the start), permissions, file offset, pathname and class. */
  datatype Region = Region(
    start: string,
    end: string,
    size: int,
    permissions: string,
    offset: string,
    pathname: string,
    analysis: RegionClass)

  /** What one line of the map contributes: nothing, a region, or the
      ValueError raised by an address range that does not parse. */
  datatype LineOutcome = Skipped | Parsed(region: Region) | Malformed

  /** A line's whitespace-separated fields. */
  function Fields(line: string): seq<string> {
    Split(Strip(line))
  }

  /** The pathname field: the sixth field when there is one (later ones
      are dropped), "[anonymous]" otherwise. */
  function PathnameOf(parts: seq<string>): (p: string)
    requires |parts| >= 5
    ensures |parts| > 5 ==> p == parts[5]
    ensures |parts| == 5 ==> p == Anonymous
  {
    if |parts| > 5 then parts[5] else Anonymous
  }

  /** The region a line describes. A line with fewer than five fields is
      skipped; otherwise its first field must be two hexadecimal numbers
      joined by one '-'. What the outcome means is stated by
      `ParseLineSpec`. */
  function ParseLine(line: string): LineOutcome {
    ParseFields(Fields(line))
  }

  /** An address range as the line wrote it, and the two addresses. */
  datatype AddressRange = AddressRange(lo: string, hi: string, first: int, last: int)

  /** Python's `start, end = field.split("-")` followed by reading each
      half with `int(_, 16)`; `None` where either raises ValueError. */
  function ParseAddressRange(field: string): Option<AddressRange> {
    match SplitInTwo(field, '-')
    case None => None
    case Some((lo, hi)) =>
      match (ParseHexInt(lo), ParseHexInt(hi))
      case (Some(first), Some(last)) => Some(AddressRange(lo, hi, first, last))
      case _ => None
  }

  /** The outcome of a line with the given fields. */
  function ParseFields(parts: seq<string>): LineOutcome {
    if |parts| < 5 then Skipped
    else match ParseAddressRange(parts[0])
      case None => Malformed
      case Some(range) => Parsed(RegionOf(range, parts))
  }

  /** The region of a line with address range `range` and fields `parts`:
      the size is the end address minus the start. */
  function RegionOf(range: AddressRange, parts: seq<string>): Region
    requires |parts| >= 5
  {
    var pathname := PathnameOf(parts);
    var size := range.last - range.first;
    Region("0x" + range.lo, "0x" + range.hi, size, parts[1], parts[2], pathname,
           ClassifyRegion(parts[1], pathname, size))
  }

  /** A line with fewer than five fields is skipped and any other gives a
      region or fails. A region's addresses are the two halves of the
      first field, each read as hexadecimal, and its size is their
      difference; permissions and offset are the second and third fields,
      the pathname the sixth or "[anonymous]", and its class is the
      classifier's verdict on them. The line fails exactly when the first
      field is not two parts joined by one '-', or a part is not a
      hexadecimal number. */
  lemma ParseLineSpec(line: string)
    ensures ParseLine(line).Skipped? <==> |Fields(line)| < 5
    ensures ParseLine(line).Parsed? ==>
              var parts := Fields(line);
              var region := ParseLine(line).region;
              && SplitInTwo(parts[0], '-').Some?
              && var (lo, hi) := SplitInTwo(parts[0], '-').value;
              && ParseHexInt(lo).Some? && ParseHexInt(hi).Some?
              && region.start == "0x" + lo
              && region.end == "0x" + hi
              && region.size == ParseHexInt(hi).value - ParseHexInt(lo).value
              && region.permissions == parts[1]
              && region.offset == parts[2]
              && region.pathname == PathnameOf(parts)
              && region.analysis == ClassifyRegion(region.permissions, region.pathname, region.size)
    ensures ParseLine(line).Malformed? <==>
              var parts := Fields(line);
              && |parts| >= 5
              && (|| SplitInTwo(parts[0], '-').None?
                  || ParseHexInt(SplitInTwo(parts[0], '-').value.0).None?
                  || ParseHexInt(SplitInTwo(parts[0], '-').value.1).None?)
  {
  }

  /** A maps line in its simplest layout: the range as two hexadecimal
      numerals without padding, then permissions, offset, device, inode
      and, when there is one, a one-word pathname, separated by single
      spaces. `KernelMapsLine` below allows padded numerals, runs of
      whitespace and pathnames of several words. */
  function MapsLine(first: nat, last: nat, perms: string, offset: string, dev: string, inode: string,
                    pathname: Option<string>): string
  {
    var fields := [ToHex(first) + "-" + ToHex(last), perms, offset, dev, inode];
    JoinSpaced(if pathname.Some? then fields + [pathname.value] else fields) + "\n"
  }

  /** Parsing a line written for a mapping gives back its region: its
      addresses, its size as the difference of the two, and its pathname
      or "[anonymous]". */
  lemma ParseMapsLine(first: nat, last: nat, perms: string, offset: string, dev: string, inode: string,
                      pathname: Option<string>)
    requires IsToken(perms) && IsToken(offset) && IsToken(dev) && IsToken(inode)
    requires pathname.Some? ==> IsToken(pathname.value)
    ensures var path := if pathname.Some? then pathname.value else Anonymous;
            ParseLine(MapsLine(first, last, perms, offset, dev, inode, pathname))
            == Parsed(Region("0x" + ToHex(first), "0x" + ToHex(last), last - first, perms, offset, path,
                             ClassifyRegion(perms, path, last - first)))
  {
    var fields := [ToHex(first) + "-" + ToHex(last), perms, offset, dev, inode];
    var all := if pathname.Some? then fields + [pathname.value] else fields;
    var path := if pathname.Some? then pathname.value else Anonymous;
    assert all[0] == fields[0] && all[1] == perms && all[2] == offset;
    assert PathnameOf(all) == path;
    ParseFieldsOfHex(first, last, all, perms, offset, path);
    MapsLineFields(first, last, perms, offset, dev, inode, pathname);
  }

  /** Fields whose first is a range written in hexadecimal parse to the
      region of those addresses and fields. */
  lemma ParseFieldsOfHex(first: nat, last: nat, parts: seq<string>, perms: string, offset: string, path: string)
    requires |parts| >= 5 && parts[0] == ToHex(first) + "-" + ToHex(last)
    requires parts[1] == perms && parts[2] == offset && PathnameOf(parts) == path
    ensures ParseFields(parts)
            == Parsed(Region("0x" + ToHex(first), "0x" + ToHex(last), last - first, perms, offset, path,
                             ClassifyRegion(perms, path, last - first)))
  {
    AddressRangeOfHex(first, last);
    var range := AddressRange(ToHex(first), ToHex(last), first, last);
    assert ParseFields(parts) == Parsed(RegionOf(range, parts));
    RegionOfFields(range, parts, perms, offset, path);
  }

  /** The region of a line, in terms of the fields it reads. */
  lemma RegionOfFields(range: AddressRange, parts: seq<string>, perms: string, offset: string, path: string)
    requires |parts| >= 5 && parts[1] == perms && parts[2] == offset && PathnameOf(parts) == path
    ensures var size := range.last - range.first;
            RegionOf(range, parts)
            == Region("0x" + range.lo, "0x" + range.hi, size, perms, offset, path, ClassifyRegion(perms, path, size))
    ensures ParseAddressRange(parts[0]) == Some(range) ==> ParseFields(parts) == Parsed(RegionOf(range, parts))
  {
  }

  /** The fields of a written line are the ones written. */
  lemma MapsLineFields(first: nat, last: nat, perms: string, offset: string, dev: string, inode: string,
                       pathname: Option<string>)
    requires IsToken(perms) && IsToken(offset) && IsToken(dev) && IsToken(inode)
    requires pathname.Some? ==> IsToken(pathname.value)
    ensures var fields := [ToHex(first) + "-" + ToHex(last), perms, offset, dev, inode];
            Fields(MapsLine(first, last, perms, offset, dev, inode, pathname))
            == if pathname.Some? then fields + [pathname.value] else fields
  {
    var lo, hi := ToHex(first), ToHex(last);
    var range := lo + "-" + hi;
    var fields := [range, perms, offset, dev, inode];
    var all := if pathname.Some? then fields + [pathname.value] else fields;
    assert IsToken(range) by {
      forall i | 0 <= i < |range| ensures !IsSpace(range[i]) {
        if i < |lo| { assert range[i] == lo[i] && IsHexDigit(lo[i]); }
        else if i > |lo| { assert range[i] == hi[i - |lo| - 1] && IsHexDigit(hi[i - |lo| - 1]); }
      }
    }
    assert forall t :: t in all ==> IsToken(t);
    SplitStrippedLine(all);
  }

  /** A range written as two hexadecimal numerals reads back as them. */
  lemma AddressRangeOfHex(first: nat, last: nat)
    ensures ParseAddressRange(ToHex(first) + "-" + ToHex(last))
            == Some(AddressRange(ToHex(first), ToHex(last), first, last))
  {
    var lo, hi := ToHex(first), ToHex(last);
    assert '-' !in lo && '-' !in hi by {
      forall i | 0 <= i < |lo| ensures lo[i] != '-' { assert IsHexDigit(lo[i]); }
      forall i | 0 <= i < |hi| ensures hi[i] != '-' { assert IsHexDigit(hi[i]); }
    }
    SplitInTwoUnique(lo, hi, '-');
    ParseHexIntOfToHex(first);
    ParseHexIntOfToHex(last);
  }

  /** Text with exactly one separator splits at it. */
  lemma SplitInTwoUnique(a: string, b: string, sep: char)
    requires sep !in a && sep !in b
    ensures SplitInTwo(a + [sep] + b, sep) == Some((a, b))
  {
    var s := a + [sep] + b;
    assert s[..|a|] == a && s[|a|] == sep && s[|a| + 1..] == b;
    var r := IndexOf(s, sep);
    assert r.Some?;
    var i := r.value;
    assert i == |a|;
  }

  // ---------------------------------------------------------------------
  // Lines as the kernel lays them out

  /** A maps line as the kernel lays it out: the address range as two
      hexadecimal numerals (zero-padded or not), then permissions, offset,
      device and inode, then the words of the pathname if there is one,
      each field separated from the next by a run of whitespace (the
      kernel pads the column before the pathname). */
  function KernelMapsLine(lo: string, hi: string, perms: string, offset: string, dev: string, inode: string,
                          pathWords: seq<string>, gaps: seq<string>): string
    requires |gaps| == 4 + |pathWords|
  {
    Spaced([lo + "-" + hi, perms, offset, dev, inode] + pathWords, gaps) + "\n"
  }

  /** An address range written as two numerals is one field, with a single '-'. */
  lemma RangeIsToken(lo: string, hi: string)
    requires IsHexNumeral(lo) && IsHexNumeral(hi)
    ensures IsToken(lo + "-" + hi) && '-' !in lo && '-' !in hi
  {
    var range := lo + "-" + hi;
    forall i | 0 <= i < |range| ensures !IsSpace(range[i]) {
      if i < |lo| { assert range[i] == lo[i] && IsHexDigit(lo[i]); }
      else if i > |lo| { assert range[i] == hi[i - |lo| - 1] && IsHexDigit(hi[i - |lo| - 1]); }
    }
    forall i | 0 <= i < |lo| ensures lo[i] != '-' { assert IsHexDigit(lo[i]); }
    forall i | 0 <= i < |hi| ensures hi[i] != '-' { assert IsHexDigit(hi[i]); }
  }

  /** The fields of a line laid out by the kernel are the ones laid out. */
  lemma KernelMapsLineFields(lo: string, hi: string, perms: string, offset: string, dev: string, inode: string,
                             pathWords: seq<string>, gaps: seq<string>)
    requires IsHexNumeral(lo) && IsHexNumeral(hi)
    requires IsToken(perms) && IsToken(offset) && IsToken(dev) && IsToken(inode)
    requires forall w :: w in pathWords ==> IsToken(w)
    requires |gaps| == 4 + |pathWords| && forall g :: g in gaps ==> IsGap(g)
    ensures Fields(KernelMapsLine(lo, hi, perms, offset, dev, inode, pathWords, gaps))
            == [lo + "-" + hi, perms, offset, dev, inode] + pathWords
  {
    RangeIsToken(lo, hi);
    var fields := [lo + "-" + hi, perms, offset, dev, inode] + pathWords;
    assert forall t :: t in fields ==> IsToken(t);
    SplitOfStripped(KernelMapsLine(lo, hi, perms, offset, dev, inode, pathWords, gaps));
    SplitSpaced(fields, gaps, "\n");
  }

  /** A range written as two hexadecimal numerals reads back as their values. */
  lemma AddressRangeOfNumerals(lo: string, hi: string)
    requires IsHexNumeral(lo) && IsHexNumeral(hi)
    ensures ParseAddressRange(lo + "-" + hi) == Some(AddressRange(lo, hi, HexValue(lo), HexValue(hi)))
  {
    RangeIsToken(lo, hi);
    SplitInTwoUnique(lo, hi, '-');
  }

  /** Fields whose first is a range of two numerals parse to the region of
      those addresses and fields. */
  lemma ParseFieldsOfNumerals(lo: string, hi: string, first: nat, last: nat, parts: seq<string>,
                              perms: string, offset: string, path: string)
    requires IsHexNumeral(lo) && IsHexNumeral(hi) && HexValue(lo) == first && HexValue(hi) == last
    requires |parts| >= 5 && parts[0] == lo + "-" + hi
    requires parts[1] == perms && parts[2] == offset && PathnameOf(parts) == path
    ensures ParseFields(parts) == Parsed(Region("0x" + lo, "0x" + hi, last - first, perms, offset, path,
                                                ClassifyRegion(perms, path, last - first)))
  {
    AddressRangeOfNumerals(lo, hi);
    RegionOfFields(AddressRange(lo, hi, first, last), parts, perms, offset, path);
  }

  /** Parsing a line laid out by the kernel gives back its region: the
      addresses as written, the size as the difference of their values,
      and the first word of the pathname, or "[anonymous]" when there is
      none. */
  lemma ParseKernelMapsLine(lo: string, hi: string, first: nat, last: nat, perms: string, offset: string,
                            dev: string, inode: string, pathWords: seq<string>, gaps: seq<string>)
    requires IsHexNumeral(lo) && IsHexNumeral(hi) && HexValue(lo) == first && HexValue(hi) == last
    requires IsToken(perms) && IsToken(offset) && IsToken(dev) && IsToken(inode)
    requires forall w :: w in pathWords ==> IsToken(w)
    requires |gaps| == 4 + |pathWords| && forall g :: g in gaps ==> IsGap(g)
    ensures var path := if pathWords == [] then Anonymous else pathWords[0];
            ParseLine(KernelMapsLine(lo, hi, perms, offset, dev, inode, pathWords, gaps))
            == Parsed(Region("0x" + lo, "0x" + hi, last - first, perms, offset, path,
                             ClassifyRegion(perms, path, last - first)))
  {
    KernelMapsLineFields(lo, hi, perms, offset, dev, inode, pathWords, gaps);
    KernelFieldsRegion(lo, hi, first, last, perms, offset, dev, inode, pathWords);
  }

  /** The region of the fields of such a line. */
  lemma KernelFieldsRegion(lo: string, hi: string, first: nat, last: nat, perms: string, offset: string,
                           dev: string, inode: string, pathWords: seq<string>)
    requires IsHexNumeral(lo) && IsHexNumeral(hi) && HexValue(lo) == first && HexValue(hi) == last
    ensures var path := if pathWords == [] then Anonymous else pathWords[0];
            ParseFields([lo + "-" + hi, perms, offset, dev, inode] + pathWords)
            == Parsed(Region("0x" + lo, "0x" + hi, last - first, perms, offset, path,
                             ClassifyRegion(perms, path, last - first)))
  {
    var fields := [lo + "-" + hi, perms, offset, dev, inode] + pathWords;
    var path := if pathWords == [] then Anonymous else pathWords[0];
    assert fields[0] == lo + "-" + hi && fields[1] == perms && fields[2] == offset;
    assert PathnameOf(fields) == path;
    ParseFieldsOfNumerals(lo, hi, first, last, fields, perms, offset, path);
  }

  // ---------------------------------------------------------------------
  // The pathname of a deleted file

  lemma DeletedIsToken()
    ensures IsToken(Deleted)
  {
  }

  /** The kernel marks the mapping of a deleted file by writing " (deleted)"
      after its path. `split()` makes the marker a field of its own after
      the sixth, and the pathname is the sixth field alone, so such a
      mapping is never classified as a phantom mapping. */
  lemma DeletedMappingNotPhantom(lo: string, hi: string, first: nat, last: nat, perms: string, offset: string,
                                 dev: string, inode: string, path: string, gaps: seq<string>)
    requires IsHexNumeral(lo) && IsHexNumeral(hi) && HexValue(lo) == first && HexValue(hi) == last
    requires IsToken(perms) && IsToken(offset) && IsToken(dev) && IsToken(inode)
    requires IsToken(path) && !Contains(path, Deleted)
    requires |gaps| == 6 && forall g :: g in gaps ==> IsGap(g)
    ensures var outcome := ParseLine(KernelMapsLine(lo, hi, perms, offset, dev, inode, [path, Deleted], gaps));
            && outcome.Parsed?
            && outcome.region.pathname == path
            && outcome.region.analysis.category != PhantomMapping
            && (!Contains(perms, "rwx") ==> outcome.region.analysis.order < 3)
  {
    DeletedIsToken();
    assert forall w :: w in [path, Deleted] ==> IsToken(w);
    ParseKernelMapsLine(lo, hi, first, last, perms, offset, dev, inode, [path, Deleted], gaps);
    ClassifyRegionSpec(perms, path, last - first);
  }

  /** The fields of a line with everything from the sixth field on read as
      the pathname, its words rejoined with single spaces. */
  function CorrectedFields(line: string): (parts: seq<string>)
    ensures |parts| == if |Fields(line)| > 5 then 6 else |Fields(line)|
    ensures forall i :: 0 <= i < |parts| && i < 5 ==> parts[i] == Fields(line)[i]
    ensures |Fields(line)| > 5 ==> parts[5] == JoinSpaced(Fields(line)[5..])
  {
    var parts := Fields(line);
    if |parts| > 5 then parts[..5] + [JoinSpaced(parts[5..])] else parts
  }

  /** The outcome of a line with its whole pathname read. */
  function CorrectedParseLine(line: string): LineOutcome {
    ParseFields(CorrectedFields(line))
  }

  /** The correction changes only lines whose pathname has several words. */
  lemma CorrectedParseAgrees(line: string)
    requires |Fields(line)| <= 6
    ensures CorrectedParseLine(line) == ParseLine(line)
  {
    var parts := Fields(line);
    if |parts| == 6 {
      assert parts[5..] == [parts[5]];
      assert parts[..5] + [parts[5]] == parts;
    }
  }

  /** With its whole pathname read, the mapping of a deleted file keeps its
      marker and is classified as order 3: a phantom mapping, unless its
      permissions make it writable code. */
  lemma DeletedMappingIsPhantom(lo: string, hi: string, first: nat, last: nat, perms: string, offset: string,
                                dev: string, inode: string, path: string, gaps: seq<string>)
    requires IsHexNumeral(lo) && IsHexNumeral(hi) && HexValue(lo) == first && HexValue(hi) == last
    requires IsToken(perms) && IsToken(offset) && IsToken(dev) && IsToken(inode) && IsToken(path)
    requires |gaps| == 6 && forall g :: g in gaps ==> IsGap(g)
    ensures var outcome := CorrectedParseLine(KernelMapsLine(lo, hi, perms, offset, dev, inode, [path, Deleted], gaps));
            && outcome.Parsed?
            && outcome.region.pathname == path + " " + Deleted
            && outcome.region.analysis.order == 3
            && (!Contains(perms, "rwx") ==> outcome.region.analysis.category == PhantomMapping)
  {
    var line := KernelMapsLine(lo, hi, perms, offset, dev, inode, [path, Deleted], gaps);
    var full := path + " " + Deleted;
    var parts := [lo + "-" + hi, perms, offset, dev, inode] + [full];
    var c := ClassifyRegion(perms, full, last - first);
    DeletedLineCorrectedFields(lo, hi, perms, offset, dev, inode, path, gaps);
    KernelFieldsRegion(lo, hi, first, last, perms, offset, dev, inode, [full]);
    assert ParseFields(parts) == Parsed(Region("0x" + lo, "0x" + hi, last - first, perms, offset, full, c));
    assert CorrectedParseLine(line) == ParseFields(parts);
    DeletedPathIsPhantom(perms, path, last - first);
  }

  /** Read with its whole pathname, a deleted file's line has the path and
      its marker as the sixth field. */
  lemma DeletedLineCorrectedFields(lo: string, hi: string, perms: string, offset: string, dev: string, inode: string,
                                   path: string, gaps: seq<string>)
    requires IsHexNumeral(lo) && IsHexNumeral(hi)
    requires IsToken(perms) && IsToken(offset) && IsToken(dev) && IsToken(inode) && IsToken(path)
    requires |gaps| == 6 && forall g :: g in gaps ==> IsGap(g)
    ensures CorrectedFields(KernelMapsLine(lo, hi, perms, offset, dev, inode, [path, Deleted], gaps))
            == [lo + "-" + hi, perms, offset, dev, inode] + [path + " " + Deleted]
  {
    DeletedIsToken();
    assert forall w :: w in [path, Deleted] ==> IsToken(w);
    KernelMapsLineFields(lo, hi, perms, offset, dev, inode, [path, Deleted], gaps);
    var fields := [lo + "-" + hi, perms, offset, dev, inode] + [path, Deleted];
    assert fields[..5] == [lo + "-" + hi, perms, offset, dev, inode];
    assert fields[5..] == [path, Deleted];
    assert JoinSpaced([path, Deleted]) == path + " " + Deleted by {
      assert [path, Deleted][1..] == [Deleted];
    }
  }

  /** A pathname carrying the marker is of order 3, and a phantom mapping
      unless the region is writable code. */
  lemma DeletedPathIsPhantom(perms: string, path: string, size: int)
    ensures var c := ClassifyRegion(perms, path + " " + Deleted, size);
            && c.order == 3
            && (!Contains(perms, "rwx") ==> c.category == PhantomMapping)
  {
    var full := path + " " + Deleted;
    assert full[|path| + 1..] == Deleted;
    OccursThenContains(full, Deleted, |path| + 1);
    ClassifyRegionSpec(perms, full, size);
  }

  /** The outcome of each line of a map. */
  function Outcomes(lines: seq<string>): (outcomes: seq<LineOutcome>)
    ensures |outcomes| == |lines|
    ensures forall i :: 0 <= i < |lines| ==> outcomes[i] == ParseLine(lines[i])
  {
    seq(|lines|, i requires 0 <= i < |lines| => ParseLine(lines[i]))
  }

  /** The regions of the outcomes, in order, or the index of the first
      malformed line: its ValueError escapes the reader and ends it. */
  function Collect(outcomes: seq<LineOutcome>): (r: Result<seq<Region>, nat>)
    ensures r.Err? ==> r.error < |outcomes|
  {
    if outcomes == [] then Ok([])
    else match Collect(outcomes[..|outcomes| - 1])
      case Err(i) => Err(i)
      case Ok(regions) =>
        match outcomes[|outcomes| - 1]
        case Skipped => Ok(regions)
        case Parsed(region) => Ok(regions + [region])
        case Malformed => Err(|outcomes| - 1)
  }

  /** The regions of a whole map. */
  function ParseRegions(lines: seq<string>): Result<seq<Region>, nat> {
    Collect(Outcomes(lines))
  }

  /** Reading fails exactly at the first malformed line, and succeeds when
      there is none. */
  lemma {:induction false} CollectFails(outcomes: seq<LineOutcome>)
    ensures Collect(outcomes).Err? ==>
              && outcomes[Collect(outcomes).error].Malformed?
              && forall j :: 0 <= j < Collect(outcomes).error ==> !outcomes[j].Malformed?
    ensures Collect(outcomes).Ok? <==> forall j :: 0 <= j < |outcomes| ==> !outcomes[j].Malformed?
  {
    if outcomes != [] {
      var n := |outcomes| - 1;
      var init := outcomes[..n];
      CollectFails(init);
      assert forall j :: 0 <= j < n ==> init[j] == outcomes[j];
    }
  }

  /** The outcomes of two runs of lines combine: the first failure wins,
      and otherwise the regions of the first run come before those of the
      second. So every parsed line yields its region in input order. */
  lemma {:induction false} CollectAppend(a: seq<LineOutcome>, b: seq<LineOutcome>)
    ensures Collect(a + b) ==
              match Collect(a)
              case Err(i) => Err(i)
              case Ok(first) =>
                match Collect(b)
                case Err(j) => Err(|a| + j)
                case Ok(second) => Ok(first + second)
  {
    if b == [] {
      assert a + b == a;
      if Collect(a).Ok? {
        assert Collect(a).value + [] == Collect(a).value;
      }
    } else {
      var init := b[..|b| - 1];
      CollectAppend(a, init);
      assert (a + b)[..|a + b| - 1] == a + init;
      assert (a + b)[|a + b| - 1] == b[|b| - 1];
      if Collect(a).Ok? && Collect(init).Ok? && b[|b| - 1].Parsed? {
        assert Collect(a).value + Collect(init).value + [b[|b| - 1].region]
            == Collect(a).value + (Collect(init).value + [b[|b| - 1].region]);
      }
    }
  }

  /** A lone line contributes its region, nothing, or its failure. */
  lemma CollectOne(o: LineOutcome)
    ensures Collect([o]) == match o
                            case Skipped => Ok([])
                            case Parsed(region) => Ok([region])
                            case Malformed => Err(0)
  {
    assert [o][..0] == [];
    assert Collect([o][..0]) == Ok([]);
    if o.Parsed? {
      assert [] + [o.region] == [o.region];
    }
  }

  /** The regions read are exactly those of the parsed lines. */
  lemma {:induction false} CollectRegions(outcomes: seq<LineOutcome>)
    requires Collect(outcomes).Ok?
    ensures forall r :: r in Collect(outcomes).value <==> Parsed(r) in outcomes
  {
    if outcomes != [] {
      var init := outcomes[..|outcomes| - 1];
      CollectRegions(init);
      assert outcomes == init + [outcomes[|outcomes| - 1]];
    }
  }

  /** The total of the region sizes. */
  function TotalMapped(regions: seq<Region>): int {
    if regions == [] then 0 else TotalMapped(regions[..|regions| - 1]) + regions[|regions| - 1].size
  }

  /** The regions of order 3 or more, in their original order. */
  function Suspicious(regions: seq<Region>): (s: seq<Region>)
    ensures forall r :: r in s <==> r in regions && r.analysis.order >= 3
    ensures |s| <= |regions|
  {
    if regions == [] then []
    else
      var last := regions[|regions| - 1];
      assert regions == regions[..|regions| - 1] + [last];
      Suspicious(regions[..|regions| - 1]) + (if last.analysis.order >= 3 then [last] else [])
  }

  /** Filtering distributes over concatenation, so the suspicious
      regions keep the order of the map. */
  lemma {:induction false} SuspiciousAppend(a: seq<Region>, b: seq<Region>)
    ensures Suspicious(a + b) == Suspicious(a) + Suspicious(b)
  {
    if b != [] {
      var init := b[..|b| - 1];
      SuspiciousAppend(a, init);
      assert (a + b)[..|a + b| - 1] == a + init;
    } else {
      assert a + b == a;
    }
  }

  /** The total mapped size of two runs of regions is the sum of theirs. */
  lemma {:induction false} TotalMappedAppend(a: seq<Region>, b: seq<Region>)
    ensures TotalMapped(a + b) == TotalMapped(a) + TotalMapped(b)
  {
    if b != [] {
      var init := b[..|b| - 1];
      TotalMappedAppend(a, init);
      assert (a + b)[..|a + b| - 1] == a + init;
    } else {
      assert a + b == a;
    }
  }

  /** How the maps file presents itself: missing (no such process),
      refusing to be read, or its lines. */
  datatype MapsSource = Missing | Denied | Lines(lines: seq<string>)

  /** The two error reports the reader returns, and the ValueError that
      escapes it from a malformed address range at the given line. */
  datatype MapsError = ProcessNotFound | PermissionDenied | MalformedAddressRange(line: nat)

  /** The reader's report, without its wall-clock scan time. */
  datatype MapsReport = MapsReport(
    pid: nat,
    totalRegions: nat,
    totalMapped: int,
    suspicious: seq<Region>,
    regions: seq<Region>)

  /** What reading the map of process `pid` reports. */
  function MapsReportOf(pid: nat, source: MapsSource): (r: Result<MapsReport, MapsError>)
    ensures r.Ok? ==> && r.value.totalRegions == |r.value.regions|
                      && r.value.pid == pid
                      && forall x :: x in r.value.suspicious ==> x in r.value.regions
  {
    match source
    case Missing => Err(ProcessNotFound)
    case Denied => Err(PermissionDenied)
    case Lines(lines) =>
      match ParseRegions(lines)
      case Err(i) => Err(MalformedAddressRange(i))
      case Ok(regions) =>
        Ok(MapsReport(pid, |regions|, TotalMapped(regions), Suspicious(regions), regions))
  }

  /** The reader: one pass over the lines, appending each region. */
  method ReadProcMaps(pid: nat, source: MapsSource) returns (result: Result<MapsReport, MapsError>)
    ensures result == MapsReportOf(pid, source)
  {
    if source.Missing? {
      return Err(ProcessNotFound);
    }
    if source.Denied? {
      return Err(PermissionDenied);
    }
    var lines := source.lines;
    ghost var outcomes := Outcomes(lines);
    var regions: seq<Region> := [];
    for i := 0 to |lines|
      invariant Collect(outcomes[..i]) == Ok(regions)
    {
      assert outcomes[..i + 1][..i] == outcomes[..i];
      match ParseLine(lines[i])
      case Skipped =>
      case Parsed(region) =>
        regions := regions + [region];
      case Malformed =>
        assert Collect(outcomes[..i + 1]) == Err(i);
        CollectStopsAt(outcomes, i + 1);
        return Err(MalformedAddressRange(i));
    }
    assert outcomes[..|lines|] == outcomes;
    result := Ok(MapsReport(pid, |regions|, TotalMapped(regions), Suspicious(regions), regions));
  }

  /** A failure in a prefix is the failure of the whole map. */
  lemma {:induction false} CollectStopsAt(outcomes: seq<LineOutcome>, k: nat)
    requires k <= |outcomes| && Collect(outcomes[..k]).Err?
    ensures Collect(outcomes) == Collect(outcomes[..k])
    decreases |outcomes|
  {
    if k < |outcomes| {
      var init := outcomes[..|outcomes| - 1];
      assert init[..k] == outcomes[..k];
      CollectStopsAt(init, k);
    } else {
      assert outcomes[..k] == outcomes;
    }
  }

  // ---------------------------------------------------------------------
  // Process hollowing

  /** An indicator: the executable and command names that disagree, a
      deleted executable, or details that could not be read. */
  datatype IndicatorKind =
    | NameMismatch(exeName: string, cmdName: string)
    | DeletedBinary
    | Inaccessible

  datatype Indicator = Indicator(kind: IndicatorKind, order: nat)

  datatype HollowingAssessment = HollowingAssessment(hollowed: bool, order: nat)

  /** The hollowing report, without its scan time and conclusion text. */
  datatype HollowingReport = HollowingReport(pid: nat, indicators: seq<Indicator>, assessment: HollowingAssessment)

  /** `s` with every NUL replaced by a space. */
  function NulsToSpaces(s: string): (r: string)
    ensures |r| == |s|
    ensures forall i :: 0 <= i < |s| ==> r[i] == (if s[i] == '\0' then ' ' else s[i])
  {
    if s == [] then [] else NulsToSpaces(s[..|s| - 1]) + [if s[|s| - 1] == '\0' then ' ' else s[|s| - 1]]
  }

  /** The command line as read: NUL separators turned into spaces, then
      stripped. */
  function CommandLine(raw: string): string {
    Strip(NulsToSpaces(raw))
  }

  /** The first word of the command line, or empty for an empty one. */
  function CommandName(raw: string): (name: string)
    ensures name == [] <==> CommandLine(raw) == []
  {
    var cmdline := CommandLine(raw);
    cmdline[..TokenLength(cmdline)]
  }

  /** The command name is what `cmdline.split()[0]` gives: a non-empty
      stripped command line always has a first word, so the IndexError
      the source guards against cannot arise. */
  lemma CommandNameIsFirstWord(raw: string)
    requires CommandLine(raw) != []
    ensures |Split(CommandLine(raw))| > 0
    ensures CommandName(raw) == Split(CommandLine(raw))[0]
    ensures IsToken(CommandName(raw))
  {
  }

  /** The indicators found for an executable link and a command line,
      `None` standing for a read that failed. */
  function Indicators(exeLink: Option<string>, cmdline: Option<string>): seq<Indicator> {
    if exeLink.None? || cmdline.None? then [Indicator(Inaccessible, 2)]
    else
      var exeName := Basename(exeLink.value);
      var cmdName := CommandName(cmdline.value);
      ReadableIndicators(exeName, cmdName, NamesDiffer(exeName, cmdName), Contains(exeLink.value, Deleted))
  }

  /** The command claims a program other than the executable: it has a
      first word, and that word's basename is not the executable's. */
  predicate NamesDiffer(exeName: string, cmdName: string) {
    cmdName != [] && Basename(cmdName) != exeName
  }

  /** The indicators for a readable process: a name mismatch if the names
      differ, then a deleted binary if the executable is deleted. */
  function ReadableIndicators(exeName: string, cmdName: string, mismatch: bool, deleted: bool): seq<Indicator> {
    (if mismatch then [Indicator(NameMismatch(exeName, cmdName), 2)] else [])
    + (if deleted then [Indicator(DeletedBinary, 3)] else [])
  }

  /** Unfolds `Indicators` for a process whose reads succeed. */
  lemma IndicatorsWhenReadable(exePath: string, raw: string)
    ensures var exeName := Basename(exePath);
            var cmdName := CommandName(raw);
            Indicators(Some(exePath), Some(raw))
            == ReadableIndicators(exeName, cmdName, NamesDiffer(exeName, cmdName), Contains(exePath, Deleted))
  {
  }

  /** The largest order among the indicators. */
  function MaxOrder(indicators: seq<Indicator>): (m: nat)
    requires indicators != []
    ensures forall i :: 0 <= i < |indicators| ==> indicators[i].order <= m
    ensures exists i :: 0 <= i < |indicators| && indicators[i].order == m
  {
    if |indicators| == 1 then indicators[0].order
    else
      var rest := MaxOrder(indicators[1..]);
      assert forall i :: 1 <= i < |indicators| ==> indicators[i] == indicators[1..][i - 1];
      if indicators[0].order >= rest then indicators[0].order else rest
  }

  /** The verdict: hollowed exactly when some indicator reaches order 3;
      with no indicators, order 1 and not hollowed. */
  function Assess(indicators: seq<Indicator>): (a: HollowingAssessment)
    ensures a.hollowed <==> exists i :: 0 <= i < |indicators| && indicators[i].order >= 3
    ensures indicators == [] ==> a == HollowingAssessment(false, 1)
    ensures indicators != [] ==> a.order == MaxOrder(indicators)
  {
    if indicators == [] then HollowingAssessment(false, 1)
    else
      var maxOrder := MaxOrder(indicators);
      HollowingAssessment(maxOrder >= 3, maxOrder)
  }

  /** The detector: gathers the indicators, then assesses them. */
  method DetectProcessHollowing(pid: nat, exeLink: Option<string>, cmdline: Option<string>)
    returns (report: HollowingReport)
    ensures report.pid == pid
    ensures report.indicators == Indicators(exeLink, cmdline)
    ensures report.assessment == Assess(report.indicators)
  {
    var indicators := GatherIndicators(exeLink, cmdline);
    var assessment: HollowingAssessment;
    if indicators != [] {
      var maxOrder := MaxOrder(indicators);
      assessment := HollowingAssessment(maxOrder >= 3, maxOrder);
    } else {
      assessment := HollowingAssessment(false, 1);
    }
    report := HollowingReport(pid, indicators, assessment);
  }

  /** The detector's checks: a failed read appends INACCESSIBLE, and
      otherwise the name and deletion checks append theirs. */
  method GatherIndicators(exeLink: Option<string>, cmdline: Option<string>) returns (indicators: seq<Indicator>)
    ensures indicators == Indicators(exeLink, cmdline)
  {
    if exeLink.None? || cmdline.None? {
      indicators := [Indicator(Inaccessible, 2)];
    } else {
      var exePath := exeLink.value;
      var exeName := Basename(exePath);
      var cmdName := CommandName(cmdline.value);
      indicators := AppendFired(exeName, cmdName, NamesDiffer(exeName, cmdName), Contains(exePath, Deleted));
      IndicatorsWhenReadable(exePath, cmdline.value);
    }
  }

  /** Appends an indicator for each check that fired: the name mismatch,
      then the deleted binary. */
  method AppendFired(exeName: string, cmdName: string, mismatch: bool, deleted: bool)
    returns (indicators: seq<Indicator>)
    ensures indicators == ReadableIndicators(exeName, cmdName, mismatch, deleted)
  {
    indicators := [];
    if mismatch {
      indicators := indicators + [Indicator(NameMismatch(exeName, cmdName), 2)];
    }
    if deleted {
      indicators := indicators + [Indicator(DeletedBinary, 3)];
    }
  }

  /** A failed read yields exactly one INACCESSIBLE indicator, of order 2,
      and the process is not judged hollowed. */
  lemma ReadFailureIsInaccessible(exeLink: Option<string>, cmdline: Option<string>)
    requires exeLink.None? || cmdline.None?
    ensures Indicators(exeLink, cmdline) == [Indicator(Inaccessible, 2)]
    ensures Assess(Indicators(exeLink, cmdline)) == HollowingAssessment(false, 2)
  {
  }

  /** The indicators of a readable process, in terms of the two checks:
      a name mismatch is present exactly when that check fired, a deleted
      binary exactly when that one fired, and then it comes last. */
  lemma ReadableIndicatorsSpec(exeName: string, cmdName: string, mismatch: bool, deleted: bool)
    ensures var inds := ReadableIndicators(exeName, cmdName, mismatch, deleted);
            && ((exists i :: 0 <= i < |inds| && inds[i].kind.NameMismatch?) <==> mismatch)
            && ((exists i :: 0 <= i < |inds| && inds[i].kind == DeletedBinary) <==> deleted)
            && (deleted ==> inds[|inds| - 1] == Indicator(DeletedBinary, 3))
            && (forall i :: 0 <= i < |inds| ==> inds[i].kind != Inaccessible)
  {
    var inds := ReadableIndicators(exeName, cmdName, mismatch, deleted);
    var first: seq<Indicator> := if mismatch then [Indicator(NameMismatch(exeName, cmdName), 2)] else [];
    var second: seq<Indicator> := if deleted then [Indicator(DeletedBinary, 3)] else [];
    assert inds == first + second;
    if mismatch {
      assert inds[0].kind.NameMismatch?;
    }
    if deleted {
      assert inds[|inds| - 1] == Indicator(DeletedBinary, 3);
    }
    forall i | 0 <= i < |inds|
      ensures inds[i].kind != Inaccessible
      ensures inds[i].kind.NameMismatch? ==> mismatch
      ensures inds[i].kind == DeletedBinary ==> deleted
    {
      if i < |first| { assert inds[i] == first[i]; } else { assert inds[i] == second[i - |first|]; }
    }
  }

  /** With both reads succeeding, a name mismatch is reported exactly when
      the command has a first word whose basename differs from the
      executable's, and a deleted binary exactly when the executable path
      carries the deletion marker, after any mismatch. */
  lemma IndicatorsOfReadableProcess(exePath: string, cmdline: string)
    ensures var inds := Indicators(Some(exePath), Some(cmdline));
            var cmdName := CommandName(cmdline);
            && ((exists i :: 0 <= i < |inds| && inds[i].kind.NameMismatch?) <==>
                  cmdName != [] && Basename(cmdName) != Basename(exePath))
            && ((exists i :: 0 <= i < |inds| && inds[i].kind == DeletedBinary) <==> Contains(exePath, Deleted))
            && (Contains(exePath, Deleted) ==> inds[|inds| - 1] == Indicator(DeletedBinary, 3))
            && (forall i :: 0 <= i < |inds| ==> inds[i].kind != Inaccessible)
  {
    var exeName := Basename(exePath);
    var cmdName := CommandName(cmdline);
    IndicatorsWhenReadable(exePath, cmdline);
    ReadableIndicatorsSpec(exeName, cmdName, NamesDiffer(exeName, cmdName), Contains(exePath, Deleted));
  }

  /** A process is judged hollowed exactly when both reads succeed and its
      executable has been deleted. */
  lemma {:induction false} HollowedIffDeletedBinary(exeLink: Option<string>, cmdline: Option<string>)
    ensures Assess(Indicators(exeLink, cmdline)).hollowed <==>
              exeLink.Some? && cmdline.Some? && Contains(exeLink.value, Deleted)
  {
    if exeLink.Some? && cmdline.Some? {
      var exeName := Basename(exeLink.value);
      var cmdName := CommandName(cmdline.value);
      IndicatorsWhenReadable(exeLink.value, cmdline.value);
      ReadableHollowedIffDeleted(exeName, cmdName, NamesDiffer(exeName, cmdName), Contains(exeLink.value, Deleted));
    } else {
      assert Indicators(exeLink, cmdline) == [Indicator(Inaccessible, 2)];
    }
  }

  /** Of a readable process's indicators only a deleted binary reaches
      order 3. */
  lemma ReadableHollowedIffDeleted(exeName: string, cmdName: string, mismatch: bool, deleted: bool)
    ensures Assess(ReadableIndicators(exeName, cmdName, mismatch, deleted)).hollowed <==> deleted
  {
    var inds := ReadableIndicators(exeName, cmdName, mismatch, deleted);
    var first: seq<Indicator> := if mismatch then [Indicator(NameMismatch(exeName, cmdName), 2)] else [];
    var second: seq<Indicator> := if deleted then [Indicator(DeletedBinary, 3)] else [];
    assert inds == first + second;
    if deleted {
      assert inds[|inds| - 1].order == 3;
    } else {
      assert inds == first;
    }
  }
}
