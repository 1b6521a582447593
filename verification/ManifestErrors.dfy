/** Which lines of a manifest parse, and how each other line fails. */
module ManifestErrors {
  import opened Wrappers
  import opened Trees
  import opened ManifestText

  // Digits.

  predicate IsHexDigit(b: byte) {
    48 <= b <= 57 || 65 <= b <= 70 || 97 <= b <= 102
  }

  /** Two digits, or a plus sign and a digit. */
  predicate GoodPair(a: byte, b: byte) {
    (IsHexDigit(a) || a == 43) && IsHexDigit(b)
  }

  predicate GoodPairAt(digits: seq<byte>, i: nat) {
    2 * i + 1 < |digits| && GoodPair(digits[2 * i], digits[2 * i + 1])
  }

  predicate AllGood(digits: seq<byte>) {
    forall i | 0 <= i < |digits| / 2 :: GoodPairAt(digits, i)
  }

  lemma PairParses(a: byte, b: byte)
    ensures ParsePair(a, b).Some? <==> GoodPair(a, b)
  {
  }

  lemma ShiftedPair(digits: seq<byte>, i: nat)
    requires |digits| >= 2
    ensures GoodPairAt(digits[2..], i) <==> GoodPairAt(digits, i + 1)
  {
  }

  lemma {:induction false} HashParses(digits: seq<byte>)
    requires |digits| % 2 == 0
    ensures ParseHash(digits).Some? <==> AllGood(digits)
    decreases |digits|
  {
    if digits != [] {
      var rest := digits[2..];
      HashParses(rest);
      PairParses(digits[0], digits[1]);
      assert GoodPairAt(digits, 0) <==> GoodPair(digits[0], digits[1]);
      if AllGood(digits) {
        forall i | 0 <= i < |rest| / 2 ensures GoodPairAt(rest, i) {
          ShiftedPair(digits, i);
        }
      }
      if AllGood(rest) && GoodPairAt(digits, 0) {
        forall i | 0 <= i < |digits| / 2 ensures GoodPairAt(digits, i) {
          if i > 0 {
            ShiftedPair(digits, i - 1);
          }
        }
      }
    }
  }

  // Lines.

  predicate KnownFlag(b: byte) {
    b == 108 || b == 116 || b == 120
  }

  /** Not empty, and without NUL, byte 1, newline and slash. */
  predicate GoodName(name: seq<byte>) {
    name != [] && forall i | 0 <= i < |name| :: name[i] != 0 && name[i] != 1 && name[i] != 10 && name[i] != 47
  }

  lemma NamesTaken(name: seq<byte>)
    ensures ValidName(Name(name)) <==> GoodName(name)
  {
  }

  lemma LineSplits(name: seq<byte>, rest: seq<byte>)
    requires 0 !in name
    ensures var d := ParseDetails(rest);
            ParseLine(name + [0] + rest) ==
              if !GoodName(name) then Err(InvalidPath)
              else if d.Err? then Err(d.error)
              else Ok((Name(name), d.value))
  {
    var line := name + [0] + rest;
    FindAfter(name, rest);
    NamesTaken(name);
    assert line[..|name|] == name && line[|name| + 1..] == rest;
  }

  /** The first thing that is wrong with what follows the name. */
  ghost function DetailsError(rest: seq<byte>): Option<Error> {
    if |rest| < 40 then Some(HashTooSmall)
    else if !AllGood(rest[..40]) then Some(if Cut(rest[..40]) then SlicePanic else MalformedHash)
    else if |rest| > 41 then Some(TooManyFlags)
    else if |rest| == 41 && !KnownFlag(rest[40]) then Some(UnknownFlag)
    else None
  }

  lemma DetailsErrors(rest: seq<byte>)
    ensures ParseDetails(rest).Ok? <==> DetailsError(rest).None?
    ensures ParseDetails(rest).Err? ==> DetailsError(rest) == Some(ParseDetails(rest).error)
    ensures ParseDetails(rest).Ok? ==>
      var kind := ParseDetails(rest).value.kind;
      && (|rest| == 40 <==> kind == FileEntry(Regular))
      && (|rest| == 41 && rest[40] == 108 <==> kind == FileEntry(Symlink))
      && (|rest| == 41 && rest[40] == 120 <==> kind == FileEntry(Executable))
      && (|rest| == 41 && rest[40] == 116 <==> kind == TreeEntry)
  {
    if |rest| >= 40 {
      HashParses(rest[..40]);
      CutsExactly(rest[..40]);
    }
  }

  /** A line is refused for want of a NUL, then for its name, then for the first thing wrong with its hash and flag;
      otherwise it parses. */
  lemma LineErrors(line: seq<byte>, name: seq<byte>, rest: seq<byte>)
    requires line == name + [0] + rest && 0 !in name
    ensures var r := ParseLine(line);
            && (!GoodName(name) ==> r == Err(InvalidPath))
            && (GoodName(name) && DetailsError(rest).Some? ==> r == Err(DetailsError(rest).value))
            && (GoodName(name) && DetailsError(rest).None? ==> r.Ok? && r.value.0 == Name(name))
  {
    LineSplits(name, rest);
    DetailsErrors(rest);
  }

  lemma NoNulError(line: seq<byte>)
    ensures ParseLine(line) == Err(NoNul) <==> 0 !in line
  {
    if 0 in line {
      var k := Find(line, 0).value;
      assert line == line[..k] + [0] + line[k + 1..];
      LineSplits(line[..k], line[k + 1..]);
      DetailsErrors(line[k + 1..]);
    }
  }

  // Characters.

  /** The bytes of one character, by the bit distribution of UTF-8. */
  function Encoded(c: int): seq<byte>
    requires IsScalar(c)
  {
    if c < 0x80 then [c as byte]
    else if c < 0x800 then [(0xC0 + c / 64) as byte, (0x80 + c % 64) as byte]
    else if c < 0x10000 then
      [(0xE0 + c / 4096) as byte, (0x80 + c / 64 % 64) as byte, (0x80 + c % 64) as byte]
    else
      [(0xF0 + c / 262144) as byte, (0x80 + c / 4096 % 64) as byte,
       (0x80 + c / 64 % 64) as byte, (0x80 + c % 64) as byte]
  }

  /** Any code point that is not a surrogate. */
  predicate IsScalar(c: int) {
    0 <= c < 0xD800 || 0xE000 <= c < 0x110000
  }

  predicate AreScalars(cs: seq<int>) {
    forall i | 0 <= i < |cs| :: IsScalar(cs[i])
  }

  function EncodedAll(cs: seq<int>): seq<byte>
    requires AreScalars(cs)
  {
    if cs == [] then [] else Encoded(cs[0]) + EncodedAll(cs[1..])
  }

  lemma {:induction false} EncodedIsValid(c: int, rest: seq<byte>)
    requires IsScalar(c) && ValidUtf8(rest)
    ensures ValidUtf8(Encoded(c) + rest)
  {
    var s := Encoded(c) + rest;
    assert s[|Encoded(c)|..] == rest;
  }

  lemma Digits(x: nat, y: nat, z: nat)
    requires y < 64 && z < 64
    ensures var c := (x * 64 + y) * 64 + z; c / 4096 == x && c / 64 == x * 64 + y && c / 64 % 64 == y && c % 64 == z
  {
  }

  lemma TwoBytes(s: seq<byte>) returns (c: int)
    requires |s| == 2 && 0xC2 <= s[0] <= 0xDF && Continues(s[1])
    ensures IsScalar(c) && Encoded(c) == s
  {
    c := (s[0] as int - 0xC0) * 64 + (s[1] as int - 0x80);
    Digits(0, s[0] as int - 0xC0, s[1] as int - 0x80);
  }

  lemma ThreeBytes(s: seq<byte>) returns (c: int)
    requires |s| == 3 && 0xE0 <= s[0] <= 0xEF && Continues(s[1]) && Continues(s[2])
    requires (s[0] == 0xE0 ==> 0xA0 <= s[1]) && (s[0] == 0xED ==> s[1] <= 0x9F)
    ensures IsScalar(c) && Encoded(c) == s
  {
    var x, y, z := s[0] as int - 0xE0, s[1] as int - 0x80, s[2] as int - 0x80;
    c := (x * 64 + y) * 64 + z;
    Digits(x, y, z);
  }

  lemma FourBytes(s: seq<byte>) returns (c: int)
    requires |s| == 4 && 0xF0 <= s[0] <= 0xF4 && Continues(s[1]) && Continues(s[2]) && Continues(s[3])
    requires (s[0] == 0xF0 ==> 0x90 <= s[1]) && (s[0] == 0xF4 ==> s[1] <= 0x8F)
    ensures IsScalar(c) && Encoded(c) == s
  {
    var w, x, y, z := s[0] as int - 0xF0, s[1] as int - 0x80, s[2] as int - 0x80, s[3] as int - 0x80;
    c := ((w * 64 + x) * 64 + y) * 64 + z;
    Digits(w * 64 + x, y, z);
    assert c / 262144 == w && c / 4096 % 64 == x;
  }

  lemma {:induction false} FirstCharacter(s: seq<byte>) returns (c: int, n: nat)
    requires s != [] && ValidUtf8(s)
    ensures IsScalar(c) && 0 < n <= |s| && Encoded(c) == s[..n] && ValidUtf8(s[n..])
  {
    if s[0] < 0x80 {
      c, n := s[0] as int, 1;
    } else if s[0] < 0xE0 {
      n := 2;
      c := TwoBytes(s[..2]);
    } else if s[0] < 0xF0 {
      n := 3;
      c := ThreeBytes(s[..3]);
    } else {
      n := 4;
      c := FourBytes(s[..4]);
    }
  }

  lemma {:induction false} EncodedAllIsValid(cs: seq<int>)
    requires AreScalars(cs)
    ensures ValidUtf8(EncodedAll(cs))
    decreases |cs|
  {
    if cs != [] {
      EncodedAllIsValid(cs[1..]);
      EncodedIsValid(cs[0], EncodedAll(cs[1..]));
    }
  }

  lemma {:induction false} Decodes(s: seq<byte>) returns (cs: seq<int>)
    requires ValidUtf8(s)
    ensures AreScalars(cs) && EncodedAll(cs) == s
    decreases |s|
  {
    cs := [];
    if s != [] {
      var c, n := FirstCharacter(s);
      var rest := Decodes(s[n..]);
      cs := [c] + rest;
      assert cs[1..] == rest && s == s[..n] + s[n..];
    }
  }

  /** A text is valid UTF-8 exactly if it is the encoding of some characters. */
  lemma {:induction false} Utf8Exactly(s: seq<byte>)
    ensures ValidUtf8(s) <==> exists cs :: AreScalars(cs) && EncodedAll(cs) == s
  {
    if ValidUtf8(s) {
      var cs := Decodes(s);
    }
    if cs :| AreScalars(cs) && EncodedAll(cs) == s {
      EncodedAllIsValid(cs);
    }
  }

  /** The slice of the first pair that is no number ends before a continuation byte. */
  predicate CutAt(digits: seq<byte>, i: nat) {
    && (forall j | 0 <= j < i :: GoodPairAt(digits, j)) && !GoodPairAt(digits, i)
    && 2 * i + 2 < |digits| && Continues(digits[2 * i + 2])
  }

  /** The text is valid, and the slice of its first bad pair ends inside a character. */
  ghost predicate Cut(digits: seq<byte>) {
    ValidUtf8(digits) && exists i: nat :: CutAt(digits, i)
  }

  lemma {:induction false} LeadByte(s: seq<byte>)
    requires s != [] && ValidUtf8(s)
    ensures !Continues(s[0])
  {
  }

  lemma {:induction false} FirstPairCuts(digits: seq<byte>)
    requires |digits| >= 2 && ValidUtf8(digits)
    ensures (digits[0] < 0x80 <= digits[1]) || 0xE0 <= digits[0] <==> |digits| > 2 && Continues(digits[2])
  {
    if digits[0] < 0x80 {
      var tail := digits[1..];
      assert ValidUtf8(tail);
      if tail[0] < 0x80 {
        assert tail[1..] == digits[2..] && ValidUtf8(digits[2..]);
        if |digits| > 2 {
          LeadByte(digits[2..]);
        }
      } else {
        assert Continues(tail[1]);
      }
    } else if digits[0] < 0xE0 && |digits| > 2 {
      LeadByte(digits[2..]);
    }
  }

  lemma {:induction false} GoodPairIsAscii(digits: seq<byte>)
    requires GoodPairAt(digits, 0) && ValidUtf8(digits)
    ensures ValidUtf8(digits[2..])
  {
    var tail := digits[1..];
    assert ValidUtf8(tail) && tail[1..] == digits[2..];
  }

  lemma CutBelow(digits: seq<byte>, i: nat)
    requires GoodPairAt(digits, 0)
    ensures CutAt(digits, i + 1) <==> CutAt(digits[2..], i)
  {
    var rest := digits[2..];
    ShiftedPair(digits, i);
    forall j: nat ensures GoodPairAt(rest, j) <==> GoodPairAt(digits, j + 1) {
      ShiftedPair(digits, j);
    }
    if CutAt(rest, i) {
      forall j | 0 <= j < i + 1 ensures GoodPairAt(digits, j) {
        if j > 0 {
          ShiftedPair(digits, j - 1);
        }
      }
    }
  }

  lemma {:induction false} CutsInside(digits: seq<byte>)
    requires |digits| % 2 == 0 && ValidUtf8(digits)
    ensures CutsCharacter(digits) <==> exists i: nat :: CutAt(digits, i)
    decreases |digits|
  {
    if digits != [] {
      PairParses(digits[0], digits[1]);
      assert GoodPairAt(digits, 0) <==> GoodPair(digits[0], digits[1]);
      if GoodPairAt(digits, 0) {
        var rest := digits[2..];
        GoodPairIsAscii(digits);
        CutsInside(rest);
        if i: nat :| CutAt(digits, i) {
          assert i > 0;
          CutBelow(digits, i - 1);
        }
        if i: nat :| CutAt(rest, i) {
          CutBelow(digits, i);
        }
      } else {
        FirstPairCuts(digits);
        assert CutAt(digits, 0) <==> |digits| > 2 && Continues(digits[2]);
        assert forall i: nat :: CutAt(digits, i) ==> i == 0;
      }
    }
  }

  /** The parser aborts on a slice exactly if the slice of the first bad pair ends inside a character. */
  lemma {:induction false} CutsExactly(digits: seq<byte>)
    requires |digits| % 2 == 0
    ensures Cut(digits) <==> ValidUtf8(digits) && CutsCharacter(digits)
  {
    if ValidUtf8(digits) {
      CutsInside(digits);
    }
  }
}
