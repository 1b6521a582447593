/** The text of a stored manifest: one line per entry, written by saving and read back by parsing. */
module ManifestText {
  import opened Wrappers
  import opened Trees
  import opened PathOrders
  import opened SortedLists

  datatype EntryType = FileEntry(ft: FileType) | TreeEntry

  /** `hash` has twenty bytes. */
  datatype Details = Details(hash: seq<byte>, kind: EntryType)

  datatype Error = NoNul | InvalidPath | HashTooSmall | MalformedHash | TooManyFlags | UnknownFlag
    | SlicePanic // not an error return: the source aborts

  const NUL: byte := 0
  const NEWLINE: byte := 10

  /** A path element is not empty and has no NUL, no byte 1, no newline and no slash. */
  predicate ValidName(name: Name) {
    name.bytes != [] && 0 !in name.bytes && 1 !in name.bytes && 10 !in name.bytes && 47 !in name.bytes
  }

  predicate ValidDetails(d: Details) {
    |d.hash| == 20
  }

  // Writing.

  function HexChar(n: int): byte
    requires 0 <= n < 16
  {
    if n < 10 then (48 + n) as byte else (87 + n) as byte
  }

  function ToHex(hash: seq<byte>): seq<byte> {
    if hash == [] then []
    else [HexChar(hash[0] as int / 16), HexChar(hash[0] as int % 16)] + ToHex(hash[1..])
  }

  function Suffix(kind: EntryType): seq<byte> {
    match kind
    case TreeEntry => [116]
    case FileEntry(Symlink) => [108]
    case FileEntry(Executable) => [120]
    case FileEntry(Regular) => []
  }

  function Line(name: Name, d: Details): seq<byte> {
    name.bytes + [NUL] + ToHex(d.hash) + Suffix(d.kind)
  }

  function Serialize(entries: seq<(Name, Details)>): seq<byte> {
    if entries == [] then [] else Line(entries[0].0, entries[0].1) + [NEWLINE] + Serialize(entries[1..])
  }

  method WriteManifest(entries: seq<(Name, Details)>) returns (manifest: seq<byte>)
    ensures manifest == Serialize(entries)
  {
    manifest := [];
    for i := 0 to |entries|
      invariant manifest + Serialize(entries[i..]) == Serialize(entries)
    {
      var line := Line(entries[i].0, entries[i].1) + [NEWLINE];
      assert Serialize(entries[i..]) == line + Serialize(entries[i + 1..]) by {
        assert entries[i..][0] == entries[i] && entries[i..][1..] == entries[i + 1..];
      }
      assert manifest + (line + Serialize(entries[i + 1..])) == (manifest + line) + Serialize(entries[i + 1..]);
      manifest := manifest + line;
    }
  }

  // Reading.

  function HexValue(b: byte): Option<int> {
    if 48 <= b <= 57 then Some(b as int - 48)
    else if 97 <= b <= 102 then Some(b as int - 87)
    else if 65 <= b <= 70 then Some(b as int - 55)
    else None
  }

  /** Two digits of base sixteen; the number parser also takes a plus sign for the first. */
  function ParsePair(a: byte, b: byte): Option<byte> {
    match (HexValue(a), HexValue(b))
    case (Some(hi), Some(lo)) => Some((16 * hi + lo) as byte)
    case (None, Some(lo)) => if a == 43 then Some(lo as byte) else None
    case _ => None
  }

  function ParseHash(digits: seq<byte>): Option<seq<byte>>
    requires |digits| % 2 == 0
  {
    if digits == [] then Some([])
    else
      match (ParsePair(digits[0], digits[1]), ParseHash(digits[2..]))
      case (Some(b), Some(rest)) => Some([b] + rest)
      case _ => None
  }

  predicate Continues(b: byte) {
    0x80 <= b <= 0xBF
  }

  /** Well-formed UTF-8, as in Table 3-7 of the Unicode standard. */
  predicate ValidUtf8(s: seq<byte>) {
    if s == [] then true
    else if s[0] < 0x80 then ValidUtf8(s[1..])
    else if 0xC2 <= s[0] <= 0xDF then |s| >= 2 && Continues(s[1]) && ValidUtf8(s[2..])
    else if 0xE0 <= s[0] <= 0xEF then
      && |s| >= 3 && Continues(s[1]) && Continues(s[2])
      && (s[0] == 0xE0 ==> 0xA0 <= s[1]) && (s[0] == 0xED ==> s[1] <= 0x9F)
      && ValidUtf8(s[3..])
    else
      && 0xF0 <= s[0] <= 0xF4 && |s| >= 4 && Continues(s[1]) && Continues(s[2]) && Continues(s[3])
      && (s[0] == 0xF0 ==> 0x90 <= s[1]) && (s[0] == 0xF4 ==> s[1] <= 0x8F)
      && ValidUtf8(s[4..])
  }

  /** The first pair that is no number ends inside a character. */
  predicate CutsCharacter(digits: seq<byte>)
    requires |digits| % 2 == 0
  {
    if digits == [] then false
    else if ParsePair(digits[0], digits[1]).Some? then CutsCharacter(digits[2..])
    else (digits[0] < 0x80 <= digits[1]) || 0xE0 <= digits[0]
  }

  function ParseDetails(data: seq<byte>): Result<Details, Error> {
    if |data| < 40 then Err(HashTooSmall)
    else
      var hash, flags := ParseHash(data[..40]), data[40..];
      if hash.None? then Err(if ValidUtf8(data[..40]) && CutsCharacter(data[..40]) then SlicePanic else MalformedHash)
      else if |flags| > 1 then Err(TooManyFlags)
      else if |flags| == 0 then Ok(Details(hash.value, FileEntry(Regular)))
      else if flags[0] == 108 then Ok(Details(hash.value, FileEntry(Symlink)))
      else if flags[0] == 120 then Ok(Details(hash.value, FileEntry(Executable)))
      else if flags[0] == 116 then Ok(Details(hash.value, TreeEntry))
      else Err(UnknownFlag)
  }

  /** The position of the first `needle`. */
  function Find(haystack: seq<byte>, needle: byte): (i: Option<nat>)
    ensures i.Some? ==> i.value < |haystack| && haystack[i.value] == needle && needle !in haystack[..i.value]
    ensures i.None? ==> needle !in haystack
  {
    if haystack == [] then None
    else if haystack[0] == needle then Some(0)
    else
      var rest := Find(haystack[1..], needle);
      if rest.None? then None
      else
        assert haystack[..rest.value + 1] == [haystack[0]] + haystack[1..][..rest.value];
        Some(rest.value + 1)
  }

  function ParseLine(line: seq<byte>): Result<(Name, Details), Error> {
    var nul := Find(line, NUL);
    if nul.None? then Err(NoNul)
    else
      var name, rest := Name(line[..nul.value]), line[nul.value + 1..];
      if !ValidName(name) then Err(InvalidPath)
      else
        var d := ParseDetails(rest);
        if d.Err? then Err(d.error) else Ok((name, d.value))
  }

  /** The pieces between newlines. */
  function Split(data: seq<byte>): (lines: seq<seq<byte>>)
    ensures lines != []
  {
    if data == [] then [[]]
    else
      var rest := Split(data[1..]);
      if data[0] == NEWLINE then [[]] + rest else [[data[0]] + rest[0]] + rest[1..]
  }

  /** Entries are read until the first empty line; a later entry of the same name wins. */
  function ParseLines(files: map<Name, Details>, lines: seq<seq<byte>>): Result<map<Name, Details>, Error>
    decreases |lines|
  {
    if lines == [] || lines[0] == [] then Ok(files)
    else
      var entry := ParseLine(lines[0]);
      if entry.Err? then Err(entry.error)
      else ParseLines(files[entry.value.0 := entry.value.1], lines[1..])
  }

  method Parse(data: seq<byte>) returns (r: Result<map<Name, Details>, Error>)
    ensures r == ParseLines(map[], Split(data))
  {
    var files: map<Name, Details> := map[];
    var lines := Split(data);
    for i := 0 to |lines|
      invariant ParseLines(files, lines[i..]) == ParseLines(map[], lines)
    {
      if lines[i] == [] {
        return Ok(files);
      }
      assert lines[i..][0] == lines[i] && lines[i..][1..] == lines[i + 1..];
      var entry := ParseLine(lines[i]);
      if entry.Err? {
        return Err(entry.error);
      }
      files := files[entry.value.0 := entry.value.1];
    }
    r := Ok(files);
  }

  // Round trip.

  lemma PairRoundTrip(b: byte)
    ensures ParsePair(HexChar(b as int / 16), HexChar(b as int % 16)) == Some(b)
  {
  }

  lemma {:induction false} HashRoundTrip(hash: seq<byte>)
    ensures |ToHex(hash)| == 2 * |hash| && ParseHash(ToHex(hash)) == Some(hash)
    ensures forall i | 0 <= i < |ToHex(hash)| :: ToHex(hash)[i] >= 48
  {
    if hash != [] {
      HashRoundTrip(hash[1..]);
      PairRoundTrip(hash[0]);
      var digits := ToHex(hash);
      assert digits[2..] == ToHex(hash[1..]);
      assert [hash[0]] + hash[1..] == hash;
    }
  }

  lemma DetailsRoundTrip(d: Details)
    requires ValidDetails(d)
    ensures ParseDetails(ToHex(d.hash) + Suffix(d.kind)) == Ok(d)
  {
    HashRoundTrip(d.hash);
    var data := ToHex(d.hash) + Suffix(d.kind);
    assert data[..40] == ToHex(d.hash) && data[40..] == Suffix(d.kind);
  }

  lemma {:induction false} FindAfter(before: seq<byte>, after: seq<byte>)
    requires NUL !in before
    ensures Find(before + [NUL] + after, NUL) == Some(|before|)
    decreases |before|
  {
    if before != [] {
      assert (before + [NUL] + after)[1..] == before[1..] + [NUL] + after;
      FindAfter(before[1..], after);
    }
  }

  lemma LineIsOneLine(name: Name, d: Details)
    requires ValidName(name)
    ensures Line(name, d) != [] && NEWLINE !in Line(name, d)
  {
    HashRoundTrip(d.hash);
  }

  lemma LineRoundTrip(name: Name, d: Details)
    requires ValidName(name) && ValidDetails(d)
    ensures ParseLine(Line(name, d)) == Ok((name, d))
  {
    var rest := ToHex(d.hash) + Suffix(d.kind);
    assert Line(name, d) == name.bytes + [NUL] + rest;
    FindAfter(name.bytes, rest);
    DetailsRoundTrip(d);
    assert Line(name, d)[..|name.bytes|] == name.bytes;
    assert Line(name, d)[|name.bytes| + 1..] == rest;
  }

  lemma {:induction false} SplitOffLine(line: seq<byte>, rest: seq<byte>)
    requires NEWLINE !in line
    ensures Split(line + [NEWLINE] + rest) == [line] + Split(rest)
    decreases |line|
  {
    var data := line + [NEWLINE] + rest;
    if line == [] {
      assert data[1..] == rest;
    } else {
      assert data[1..] == line[1..] + [NEWLINE] + rest;
      SplitOffLine(line[1..], rest);
      assert [line[0]] + line[1..] == line;
    }
  }

  predicate ValidEntries(entries: seq<(Name, Details)>) {
    forall i | 0 <= i < |entries| :: ValidName(entries[i].0) && ValidDetails(entries[i].1)
  }

  /** What the entries say, a later one of the same name winning. */
  function Listed(files: map<Name, Details>, entries: seq<(Name, Details)>): map<Name, Details>
    decreases |entries|
  {
    if entries == [] then files else Listed(files[entries[0].0 := entries[0].1], entries[1..])
  }

  lemma {:induction false} ParsesFirst(files: map<Name, Details>, name: Name, d: Details, rest: seq<byte>)
    requires ValidName(name) && ValidDetails(d)
    ensures ParseLines(files, Split(Line(name, d) + [NEWLINE] + rest)) == ParseLines(files[name := d], Split(rest))
  {
    LineIsOneLine(name, d);
    LineRoundTrip(name, d);
    SplitOffLine(Line(name, d), rest);
    assert ([Line(name, d)] + Split(rest))[1..] == Split(rest);
  }

  lemma {:induction false} ParsesAllEntries(files: map<Name, Details>, entries: seq<(Name, Details)>)
    requires ValidEntries(entries)
    ensures ParseLines(files, Split(Serialize(entries))) == Ok(Listed(files, entries))
    decreases |entries|
  {
    if entries != [] {
      var (name, d) := entries[0];
      ParsesFirst(files, name, d, Serialize(entries[1..]));
      ParsesAllEntries(files[name := d], entries[1..]);
    }
  }

  /** The entries of a map, each name once, in some order. */
  predicate Enumerates(entries: seq<(Name, Details)>, m: map<Name, Details>) {
    && (forall i, j | 0 <= i < j < |entries| :: entries[i].0 != entries[j].0)
    && (forall i | 0 <= i < |entries| :: entries[i].0 in m && m[entries[i].0] == entries[i].1)
    && (forall name | name in m :: (name, m[name]) in entries)
  }

  lemma {:induction false} ListedIsMap(files: map<Name, Details>, entries: seq<(Name, Details)>, m: map<Name, Details>)
    requires forall i | 0 <= i < |entries| :: entries[i].0 in m && m[entries[i].0] == entries[i].1
    requires forall name | name in files :: name in m && m[name] == files[name]
    requires forall name | name in m :: name in files || (name, m[name]) in entries
    ensures Listed(files, entries) == m
    decreases |entries|
  {
    if entries != [] {
      var files' := files[entries[0].0 := entries[0].1];
      forall name | name in m ensures name in files' || (name, m[name]) in entries[1..] {
        if name !in files' {
          assert (name, m[name]) in entries && (name, m[name]) != entries[0];
        }
      }
      ListedIsMap(files', entries[1..], m);
    }
  }

  /** Parsing what was written for a map of valid names gives that map back. */
  lemma {:induction false} TextRoundTrip(m: map<Name, Details>, entries: seq<(Name, Details)>)
    requires Enumerates(entries, m)
    requires forall name | name in m :: ValidName(name) && ValidDetails(m[name])
    ensures ParseLines(map[], Split(Serialize(entries))) == Ok(m)
  {
    ParsesAllEntries(map[], entries);
    ListedIsMap(map[], entries, m);
  }

  predicate LowerHex(b: byte) {
    48 <= b <= 57 || 97 <= b <= 102
  }

  lemma PairWritesBack(a: byte, b: byte, value: byte)
    requires ParsePair(a, b) == Some(value)
    ensures ToHex([value]) == [a, b] <==> LowerHex(a) && LowerHex(b)
  {
    assert ToHex([value]) == [HexChar(value as int / 16), HexChar(value as int % 16)];
    PairRoundTrip(value);
  }

  lemma {:induction false} HashWritesBack(digits: seq<byte>, hash: seq<byte>)
    requires |digits| % 2 == 0 && ParseHash(digits) == Some(hash)
    ensures |digits| == 2 * |hash|
    ensures ToHex(hash) == digits <==> forall i | 0 <= i < |digits| :: LowerHex(digits[i])
    decreases |digits|
  {
    if digits != [] {
      var rest := digits[2..];
      HashWritesBack(rest, hash[1..]);
      PairWritesBack(digits[0], digits[1], hash[0]);
      assert ToHex(hash) == ToHex([hash[0]]) + ToHex(hash[1..]);
      assert digits == [digits[0], digits[1]] + rest;
      assert forall i | 2 <= i < |digits| :: digits[i] == rest[i - 2];
    }
  }

  lemma LineParts(line: seq<byte>, name: Name, d: Details) returns (digits: seq<byte>)
    requires ParseLine(line) == Ok((name, d))
    ensures ValidName(name) && |digits| == 40 && ParseHash(digits) == Some(d.hash)
    ensures line == name.bytes + [NUL] + digits + Suffix(d.kind)
  {
    var rest := line[|name.bytes| + 1..];
    digits := rest[..40];
    assert rest[40..] == Suffix(d.kind);
  }

  lemma SameMiddle(a: seq<byte>, x: seq<byte>, y: seq<byte>, b: seq<byte>)
    requires |x| == |y| && a + x + b == a + y + b
    ensures x == y
  {
    assert (a + x + b)[|a|..|a| + |x|] == x;
    assert (a + y + b)[|a|..|a| + |y|] == y;
  }

  lemma MiddleIs(a: seq<byte>, x: seq<byte>, b: seq<byte>)
    ensures (forall i | |a| <= i < |a| + |x| :: LowerHex((a + x + b)[i]))
      <==> (forall i | 0 <= i < |x| :: LowerHex(x[i]))
  {
    assert forall i | 0 <= i < |x| :: (a + x + b)[|a| + i] == x[i];
    assert forall i | |a| <= i < |a| + |x| :: (a + x + b)[i] == x[i - |a|];
  }

  /** A line that parses is written back as it was exactly when its hash is in lower-case digits. */
  lemma LineWritesBack(line: seq<byte>, name: Name, d: Details)
    requires ParseLine(line) == Ok((name, d))
    ensures ValidName(name) && ValidDetails(d) && |line| > |name.bytes| + 40
    ensures Line(name, d) == line <==> forall i | |name.bytes| < i <= |name.bytes| + 40 :: LowerHex(line[i])
  {
    var digits := LineParts(line, name, d);
    var a, b := name.bytes + [NUL], Suffix(d.kind);
    HashWritesBack(digits, d.hash);
    MiddleIs(a, digits, b);
    if Line(name, d) == line {
      HashRoundTrip(d.hash);
      SameMiddle(a, ToHex(d.hash), digits, b);
    }
  }

  // When a whole text is what would be written.

  function Join(lines: seq<seq<byte>>): seq<byte>
    requires lines != []
  {
    if |lines| == 1 then lines[0] else lines[0] + [NEWLINE] + Join(lines[1..])
  }

  lemma {:induction false} SplitJoins(data: seq<byte>)
    ensures Join(Split(data)) == data
    decreases |data|
  {
    if data != [] {
      var rest := Split(data[1..]);
      SplitJoins(data[1..]);
      assert data == [data[0]] + data[1..];
      if data[0] == NEWLINE {
        assert ([[]] + rest)[1..] == rest;
      } else {
        assert ([[data[0]] + rest[0]] + rest[1..])[1..] == rest[1..];
      }
    }
  }

  function Lines(entries: seq<(Name, Details)>): seq<seq<byte>> {
    if entries == [] then [[]] else [Line(entries[0].0, entries[0].1)] + Lines(entries[1..])
  }

  lemma {:induction false} JoinLines(entries: seq<(Name, Details)>)
    ensures Lines(entries) != [] && Join(Lines(entries)) == Serialize(entries)
    decreases |entries|
  {
    if entries != [] {
      JoinLines(entries[1..]);
      assert Lines(entries)[1..] == Lines(entries[1..]);
    }
  }

  lemma {:induction false} SplitSerialized(entries: seq<(Name, Details)>)
    requires ValidEntries(entries)
    ensures Split(Serialize(entries)) == Lines(entries)
    decreases |entries|
  {
    if entries != [] {
      LineIsOneLine(entries[0].0, entries[0].1);
      SplitOffLine(Line(entries[0].0, entries[0].1), Serialize(entries[1..]));
      SplitSerialized(entries[1..]);
    }
  }

  predicate ByName(a: (Name, Details), b: (Name, Details)) {
    NameLess(a.0, b.0)
  }

  ghost predicate AscendingNames(entries: seq<(Name, Details)>) {
    Ascends(entries, ByName)
  }

  lemma ByNameIsOrder()
    ensures IsOrder(ByName)
  {
    forall a: (Name, Details), b: (Name, Details), c: (Name, Details)
      ensures !ByName(a, a) && (ByName(a, b) && ByName(b, c) ==> ByName(a, c))
    {
      BytesOrder(a.0.bytes, b.0.bytes, c.0.bytes);
    }
  }

  predicate LowerDigits(line: seq<byte>, name: Name) {
    forall i | |name.bytes| < i <= |name.bytes| + 40 && i < |line| :: LowerHex(line[i])
  }

  /** The text ends right after the newline of its last line, every line has lower-case digits, and the names
      ascend strictly. */
  predicate Canonical(lines: seq<seq<byte>>)
    requires lines != []
  {
    if |lines| == 1 then lines[0] == []
    else
      var entry := ParseLine(lines[0]);
      && lines[0] != [] && entry.Ok? && LowerDigits(lines[0], entry.value.0)
      && (|lines| > 2 ==> ParseLine(lines[1]).Ok? && NameLess(entry.value.0, ParseLine(lines[1]).value.0))
      && Canonical(lines[1..])
  }

  /** The entries of a canonical text, line by line. */
  lemma {:induction false} CanonicalEntries(lines: seq<seq<byte>>) returns (entries: seq<(Name, Details)>)
    requires lines != [] && Canonical(lines)
    ensures lines == Lines(entries) && ValidEntries(entries) && AscendingNames(entries) && |entries| == |lines| - 1
    ensures entries != [] ==> ParseLine(lines[0]) == Ok(entries[0])
    decreases |lines|
  {
    entries := [];
    if |lines| > 1 {
      var rest := CanonicalEntries(lines[1..]);
      var entry := ParseLine(lines[0]).value;
      LineWritesBack(lines[0], entry.0, entry.1);
      entries := [entry] + rest;
      assert entries[1..] == rest;
      assert lines == [lines[0]] + lines[1..];
      ByNameIsOrder();
      AscendsFrom(entry, rest, ByName);
    } else {
      assert lines == [[]];
    }
  }

  lemma {:induction false} LinesAreCanonical(entries: seq<(Name, Details)>)
    requires ValidEntries(entries) && AscendingNames(entries)
    ensures Lines(entries) != [] && Canonical(Lines(entries))
    decreases |entries|
  {
    if entries != [] {
      var (name, d) := entries[0];
      var rest := entries[1..];
      LinesAreCanonical(rest);
      LineIsOneLine(name, d);
      LineRoundTrip(name, d);
      LineWritesBack(Line(name, d), name, d);
      assert Lines(entries)[1..] == Lines(rest);
      if rest != [] {
        LineRoundTrip(rest[0].0, rest[0].1);
        assert rest[0] in rest;
      }
    }
  }

  lemma {:induction false} AscendingIsOnce(entries: seq<(Name, Details)>, m: map<Name, Details>)
    requires AscendingNames(entries) && (forall e | e in entries :: e.0 in m && m[e.0] == e.1)
    requires forall name | name in m :: (name, m[name]) in entries
    ensures Enumerates(entries, m)
    decreases |entries|
  {
    forall i, j | 0 <= i < j < |entries| ensures entries[i].0 != entries[j].0 {
      AscendsAt(entries, ByName, i, j);
      BytesOrder(entries[i].0.bytes, [], []);
    }
  }

  /** Every map can be listed in ascending order of names. */
  lemma {:induction false} AscendingEntries(m: map<Name, Details>) returns (entries: seq<(Name, Details)>)
    ensures AscendingNames(entries) && forall e :: e in entries <==> e.0 in m && m[e.0] == e.1
    ensures Enumerates(entries, m)
    decreases |m.Keys|
  {
    entries := [];
    if m.Keys != {} {
      var name :| name in m.Keys;
      var m' := m - {name};
      assert m'.Keys == m.Keys - {name};
      var rest := AscendingEntries(m');
      forall e | e in rest ensures ByName((name, m[name]), e) || ByName(e, (name, m[name])) {
        BytesOrder(name.bytes, e.0.bytes, []);
      }
      ByNameIsOrder();
      PlacedAscends(rest, (name, m[name]), ByName);
      entries := Placed(rest, (name, m[name]), ByName);
    }
    AscendingIsOnce(entries, m);
  }

  lemma {:induction false} ListedOf(files: map<Name, Details>, entries: seq<(Name, Details)>, e: (Name, Details))
    requires AscendingNames(entries)
    ensures var m := Listed(files, entries);
            e.0 in m && m[e.0] == e.1
            <==> e in entries || ((forall x | x in entries :: x.0 != e.0) && e.0 in files && files[e.0] == e.1)
    decreases |entries|
  {
    if entries != [] {
      ListedOf(files[entries[0].0 := entries[0].1], entries[1..], e);
      assert entries == [entries[0]] + entries[1..];
      forall x | x in entries[1..] ensures x.0 != entries[0].0 {
        BytesOrder(x.0.bytes, [], []);
      }
    }
  }

  /** Writing in ascending order what a text parses to gives the text back if and only if the text is
      canonical. */
  lemma {:induction false} TextWritesBack(data: seq<byte>, m: map<Name, Details>, entries: seq<(Name, Details)>)
    requires ParseLines(map[], Split(data)) == Ok(m) && Enumerates(entries, m) && AscendingNames(entries)
    ensures Serialize(entries) == data <==> Canonical(Split(data))
  {
    if Canonical(Split(data)) {
      var found := CanonicalEntries(Split(data));
      SplitJoins(data);
      JoinLines(found);
      assert Serialize(found) == data;
      ParsesAllEntries(map[], found);
      forall e ensures e in found <==> e in entries {
        ListedOf(map[], found, e);
        if e in entries {
          var k :| 0 <= k < |entries| && entries[k] == e;
        }
      }
      ByNameIsOrder();
      AscendingIsUnique(found, entries, ByName);
    }
    if Serialize(entries) == data {
      ParsedIsValid(map[], Split(data));
      SplitSerialized(entries);
      LinesAreCanonical(entries);
    }
  }

  lemma {:induction false} ParsedIsValid(files: map<Name, Details>, lines: seq<seq<byte>>)
    requires forall name | name in files :: ValidName(name) && ValidDetails(files[name])
    ensures var r := ParseLines(files, lines);
            r.Ok? ==> forall name | name in r.value :: ValidName(name) && ValidDetails(r.value[name])
    decreases |lines|
  {
    if lines != [] && lines[0] != [] && ParseLine(lines[0]).Ok? {
      var (name, d) := ParseLine(lines[0]).value;
      LineWritesBack(lines[0], name, d);
      ParsedIsValid(files[name := d], lines[1..]);
    }
  }

  // Different texts with the same meaning.

  /** A line whose first pair of digits is `a` and `b`. */
  function LineWith(name: Name, a: byte, b: byte, hash: seq<byte>): seq<byte> {
    name.bytes + [NUL] + ([a, b] + ToHex(hash))
  }

  lemma LineWithParses(name: Name, a: byte, b: byte, hash: seq<byte>)
    requires ValidName(name) && |hash| == 19 && ParsePair(a, b).Some?
    ensures ParseLine(LineWith(name, a, b, hash))
         == Ok((name, Details([ParsePair(a, b).value] + hash, FileEntry(Regular))))
  {
    var digits := [a, b] + ToHex(hash);
    HashRoundTrip(hash);
    FindAfter(name.bytes, digits);
    assert digits[2..] == ToHex(hash);
    var line := LineWith(name, a, b, hash);
    assert line[..|name.bytes|] == name.bytes && line[|name.bytes| + 1..] == digits;
    assert digits[..40] == digits && digits[40..] == [];
  }

  lemma OtherPairParses(name: Name, a: byte, a': byte, b: byte, hash: seq<byte>)
    requires ValidName(name) && |hash| == 19 && a != a' && ParsePair(a, b).Some? && ParsePair(a, b) == ParsePair(a', b)
    ensures LineWith(name, a, b, hash) != LineWith(name, a', b, hash)
    ensures ParseLine(LineWith(name, a, b, hash)) == ParseLine(LineWith(name, a', b, hash))
         == Ok((name, Details([ParsePair(a, b).value] + hash, FileEntry(Regular))))
  {
    LineWithParses(name, a, b, hash);
    LineWithParses(name, a', b, hash);
    var n := |name.bytes| + 1;
    assert LineWith(name, a, b, hash)[n] == a && LineWith(name, a', b, hash)[n] == a';
  }

  /** An upper-case digit, or a plus sign for a zero, parses like the digit that would be written. */
  lemma OtherDigitsParse(name: Name, hash: seq<byte>)
    requires ValidName(name) && |hash| == 19
    ensures LineWith(name, 65, 48, hash) != LineWith(name, 97, 48, hash)
    ensures ParseLine(LineWith(name, 65, 48, hash)) == ParseLine(LineWith(name, 97, 48, hash))
         == Ok((name, Details([160] + hash, FileEntry(Regular))))
    ensures LineWith(name, 43, 49, hash) != LineWith(name, 48, 49, hash)
    ensures ParseLine(LineWith(name, 43, 49, hash)) == ParseLine(LineWith(name, 48, 49, hash))
         == Ok((name, Details([1] + hash, FileEntry(Regular))))
  {
    OtherPairParses(name, 65, 97, 48, hash);
    OtherPairParses(name, 43, 48, 49, hash);
  }

  /** Two entries in the other order make a different text with the same entries. */
  lemma OtherOrderParses(a: (Name, Details), b: (Name, Details))
    requires ValidEntries([a, b]) && a.0 != b.0
    ensures Serialize([a, b]) != Serialize([b, a])
    ensures ParseLines(map[], Split(Serialize([a, b]))) == ParseLines(map[], Split(Serialize([b, a])))
  {
    var m := map[a.0 := a.1, b.0 := b.1];
    assert [a, b][0] == a && [a, b][1] == b && [b, a][0] == b && [b, a][1] == a;
    ParsesAllEntries(map[], [a, b]);
    ParsesAllEntries(map[], [b, a]);
    ListedIsMap(map[], [a, b], m);
    ListedIsMap(map[], [b, a], m);
    SplitSerialized([a, b]);
    SplitSerialized([b, a]);
    LineRoundTrip(a.0, a.1);
    LineRoundTrip(b.0, b.1);
    assert Lines([a, b])[0] == Line(a.0, a.1) && Lines([b, a])[0] == Line(b.0, b.1);
  }

  /** Nothing after an empty line is read. */
  lemma {:induction false} RestIsIgnored(files: map<Name, Details>, entries: seq<(Name, Details)>, junk: seq<byte>)
    requires ValidEntries(entries)
    ensures ParseLines(files, Split(Serialize(entries) + ([NEWLINE] + junk))) == Ok(Listed(files, entries))
    decreases |entries|
  {
    var data := Serialize(entries) + ([NEWLINE] + junk);
    if entries == [] {
      assert data == [] + [NEWLINE] + junk;
      SplitOffLine([], junk);
    } else {
      var (name, d) := entries[0];
      var rest := Serialize(entries[1..]) + ([NEWLINE] + junk);
      assert data == Line(name, d) + [NEWLINE] + rest;
      ParsesFirst(files, name, d, rest);
      RestIsIgnored(files[name := d], entries[1..], junk);
    }
  }

  // When parsing aborts.

  predicate IsAscii(s: seq<byte>) {
    forall i | 0 <= i < |s| :: s[i] < 0x80
  }

  lemma {:induction false} AsciiCutsNothing(digits: seq<byte>)
    requires |digits| % 2 == 0 && IsAscii(digits)
    ensures !CutsCharacter(digits)
    decreases |digits|
  {
    if digits != [] {
      AsciiCutsNothing(digits[2..]);
    }
  }

  lemma {:induction false} AsciiIsUtf8(s: seq<byte>)
    requires IsAscii(s)
    ensures ValidUtf8(s)
    decreases |s|
  {
    if s != [] {
      AsciiIsUtf8(s[1..]);
    }
  }

  lemma {:induction false} AsciiNeverPanics(files: map<Name, Details>, lines: seq<seq<byte>>)
    requires forall line | line in lines :: IsAscii(line)
    ensures ParseLines(files, lines) != Err(SlicePanic)
    decreases |lines|
  {
    if lines != [] && lines[0] != [] {
      var line := lines[0];
      assert line in lines;
      var nul := Find(line, NUL);
      if nul.Some? {
        var rest := line[nul.value + 1..];
        if |rest| >= 40 {
          AsciiCutsNothing(rest[..40]);
        }
      }
      if ParseLine(line).Ok? {
        var (name, d) := ParseLine(line).value;
        AsciiNeverPanics(files[name := d], lines[1..]);
      }
    }
  }

  /** A two-byte character from the second digit on makes the parser abort instead of reporting the line. */
  lemma StraddlingCharacterPanics(name: Name, rest: seq<byte>)
    requires ValidName(name) && |rest| == 37 && IsAscii(rest)
    ensures ParseLine(name.bytes + [NUL] + ([48, 0xC3, 0xA9] + rest)) == Err(SlicePanic)
  {
    var digits := [48, 0xC3, 0xA9] + rest;
    FindAfter(name.bytes, digits);
    var line := name.bytes + [NUL] + digits;
    assert line[..|name.bytes|] == name.bytes && line[|name.bytes| + 1..] == digits && digits[..40] == digits;
    assert digits[1..][0] == 0xC3 && digits[1..][1] == 0xA9 && digits[1..][2..] == rest;
    AsciiIsUtf8(rest);
    assert ValidUtf8(digits[1..]);
  }
}
