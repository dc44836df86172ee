/** The 512-byte header of the ustar Interchange Format (pax utility, IEEE Std 1003.1):
    the writer `deterministic_header` uses and the reader `validate_tar` uses.
 */
module TarHeader {
  import opened ByteStrings

  const BLOCK: nat := 512

  const SLASH: byte := 0x2F
  const SPACE: byte := 0x20
  const DIGIT_ZERO: byte := 0x30

  /** `ustar` NUL `00`: magic and version. */
  const USTAR_MAGIC: bytes := [0x75, 0x73, 0x74, 0x61, 0x72, 0, 0x30, 0x30]

  // ---- Numeric fields ----

  function Power(base: nat, n: nat): (p: nat) {
    if n == 0 then 1 else base * Power(base, n - 1)
  }

  /** The `n` least significant digits of `v`, most significant first. */
  function Digits(v: nat, n: nat, base: nat): (d: seq<nat>)
    requires base == 8 || base == 256
    ensures |d| == n
    ensures forall i :: 0 <= i < n ==> d[i] < base
  {
    if n == 0 then [] else Digits(v / base, n - 1, base) + [v % base]
  }

  function Value(d: seq<nat>, base: nat): (v: nat) {
    if d == [] then 0 else Value(d[..|d| - 1], base) * base + d[|d| - 1]
  }

  lemma {:induction false} ValueOfDigits(v: nat, n: nat, base: nat)
    requires base == 8 || base == 256
    requires v < Power(base, n)
    ensures Value(Digits(v, n, base), base) == v
  {
    if n > 0 {
      DigitSplit(v, base, Power(base, n - 1));
      ValueOfDigits(v / base, n - 1, base);
      var d := Digits(v, n, base);
      assert d[..|d| - 1] == Digits(v / base, n - 1, base);
    }
  }

  lemma DigitSplit(v: nat, base: nat, p: nat)
    requires base == 8 || base == 256
    requires v < base * p
    ensures v / base < p && v / base * base + v % base == v
  {
    if base == 8 {
    } else {
    }
  }

  function Ascii(d: seq<nat>): (s: bytes)
    requires forall i :: 0 <= i < |d| ==> d[i] < 8
    ensures |s| == |d| && forall i :: 0 <= i < |d| ==> s[i] == DIGIT_ZERO + d[i]
  {
    seq(|d|, i requires 0 <= i < |d| => DIGIT_ZERO + d[i])
  }

  /** Zero-filled octal digits closed by a NUL. */
  function OctalField(v: nat, width: nat): (f: bytes)
    requires width > 0
    ensures |f| == width
  {
    Ascii(Digits(v, width - 1, 8)) + [0]
  }

  /** Sizes of eight gibibytes and more use the base-256 extension. */
  function SizeField(size: nat): (f: bytes)
    ensures |f| == 12
  {
    if size >= 0x2_0000_0000 then [0x80, 0, 0, 0] + Raw(Digits(size, 8, 256))
    else OctalField(size, 12)
  }

  function Raw(d: seq<nat>): (s: bytes)
    requires forall i :: 0 <= i < |d| ==> d[i] < 256
    ensures |s| == |d| && forall i :: 0 <= i < |d| ==> s[i] == d[i]
  {
    seq(|d|, i requires 0 <= i < |d| => d[i])
  }

  /** The part of a field before its first NUL. */
  function Truncate(s: bytes): (r: bytes)
    ensures 0 !in r && |r| <= |s|
  {
    if s == [] || s[0] == 0 then [] else [s[0]] + Truncate(s[1..])
  }

  predicate Whitespace(b: byte) {
    b == SPACE || 0x09 <= b <= 0x0D
  }

  function TrimStart(s: bytes): (r: bytes) {
    if s != [] && Whitespace(s[0]) then TrimStart(s[1..]) else s
  }

  function TrimEnd(s: bytes): (r: bytes) {
    if s != [] && Whitespace(s[|s| - 1]) then TrimEnd(s[..|s| - 1]) else s
  }

  predicate OctalText(s: bytes) {
    s != [] && forall i :: 0 <= i < |s| ==> DIGIT_ZERO <= s[i] < DIGIT_ZERO + 8
  }

  /** An unsigned 64-bit octal number with surrounding blanks and an optional plus sign. */
  function ReadOctal(field: bytes): (r: Option<nat>)
    ensures r.Some? ==> r.value <= U64_MAX
  {
    var trimmed := TrimEnd(TrimStart(Truncate(field)));
    var text := if |trimmed| > 0 && trimmed[0] == 0x2B then trimmed[1..] else trimmed;
    if !OctalText(text) then None
    else
      var v := Value(seq(|text|, i requires 0 <= i < |text| => text[i] - DIGIT_ZERO), 8);
      if v <= U64_MAX then Some(v) else None
  }

  function ReadSize(field: bytes): (r: Option<nat>)
    requires |field| == 12
  {
    if field[0] >= 0x80 then Some(Value(seq(8, i requires 0 <= i < 8 => field[4 + i] as nat), 256))
    else ReadOctal(field)
  }

  lemma {:induction false} TruncateAtNul(s: bytes, t: bytes)
    requires 0 !in s && (t == [] || t[0] == 0)
    ensures Truncate(s + t) == s
  {
    if s == [] {
      assert s + t == t;
    } else {
      assert s[0] in s;
      assert (s + t)[1..] == s[1..] + t;
      TruncateAtNul(s[1..], t);
    }
  }

  lemma OctalRoundTrip(v: nat, width: nat)
    requires width >= 2 && v < Power(8, width - 1) && v <= U64_MAX
    ensures ReadOctal(OctalField(v, width)) == Some(v)
  {
    hide Digits, Ascii, Truncate, Value, Power;
    var d := Digits(v, width - 1, 8);
    var text := Ascii(d);
    TruncateAtNul(text, [0]);
    TrimDigits(text);
    assert seq(|text|, i requires 0 <= i < |text| => text[i] - DIGIT_ZERO) == d;
    ValueOfDigits(v, width - 1, 8);
  }

  predicate Blank(s: bytes) {
    forall i :: 0 <= i < |s| ==> s[i] == 0x20 || 0x09 <= s[i] <= 0x0D
  }

  lemma {:induction false} TrimBoth(a: bytes, text: bytes, b: bytes)
    requires Blank(a) && Blank(b) && text != [] && !Whitespace(text[0]) && !Whitespace(text[|text| - 1])
    ensures TrimEnd(TrimStart(a + text + b)) == text
    decreases |a| + |b|
  {
    var s := a + text + b;
    if a != [] {
      assert s[1..] == a[1..] + text + b;
      TrimBoth(a[1..], text, b);
    } else if b != [] {
      assert TrimStart(s) == s && s[..|s| - 1] == [] + text + b[..|b| - 1];
      TrimBoth(a, text, b[..|b| - 1]);
      assert TrimStart(s[..|s| - 1]) == s[..|s| - 1];
    } else {
      assert s == text;
    }
  }

  /** Blanks around an octal number, a plus sign before it and anything after a NUL do not matter. */
  lemma OctalAmongBlanks(a: bytes, v: nat, width: nat, b: bytes, rest: bytes, plus: bool)
    requires Blank(a) && Blank(b) && width >= 1 && v < Power(8, width) && v <= U64_MAX && (rest == [] || rest[0] == 0)
    ensures ReadOctal(a + ((if plus then [0x2B] else []) + Ascii(Digits(v, width, 8))) + b + rest) == Some(v)
  {
    hide Digits, Ascii, Truncate, Value, Power, TrimStart, TrimEnd;
    var digits := Ascii(Digits(v, width, 8));
    var text := (if plus then [0x2B] else []) + digits;
    assert text[|text| - 1] == digits[|digits| - 1];
    TruncateAtNul(a + text + b, rest);
    TrimBoth(a, text, b);
    assert (if text[0] == 0x2B then text[1..] else text) == digits;
    assert seq(|digits|, i requires 0 <= i < |digits| => digits[i] - DIGIT_ZERO) == Digits(v, width, 8);
    ValueOfDigits(v, width, 8);
  }

  lemma TrimDigits(text: bytes)
    requires OctalText(text)
    ensures TrimEnd(TrimStart(text)) == text && text[0] != 0x2B
  {
    assert !Whitespace(text[0]) && !Whitespace(text[|text| - 1]);
  }

  lemma SizeRoundTrip(size: nat)
    requires size <= U64_MAX
    ensures ReadSize(SizeField(size)) == Some(size)
  {
    if size >= 0x2_0000_0000 {
      PowerOf256();
      ValueOfDigits(size, 8, 256);
      var f := SizeField(size);
      assert seq(8, i requires 0 <= i < 8 => f[4 + i] as nat) == Digits(size, 8, 256);
    } else {
      PowerOf8();
      OctalRoundTrip(size, 12);
      var text := Ascii(Digits(size, 11, 8));
      assert SizeField(size)[0] == text[0];
    }
  }

  /** A size field with the high bit set is the big-endian number in its last eight bytes. */
  lemma BinarySize(f: bytes)
    requires |f| == 12 && f[0] >= 0x80
    ensures ReadSize(f) ==
            Some(256 * (256 * (256 * (256 * (256 * (256 * (256 * (f[4] as nat) + f[5]) + f[6]) + f[7]) + f[8]) + f[9]) + f[10]) + f[11])
  {
    var d := seq(8, i requires 0 <= i < 8 => f[4 + i] as nat);
    assert d[..7][..6] == d[..6] && d[..6][..5] == d[..5] && d[..5][..4] == d[..4];
    assert d[..4][..3] == d[..3] && d[..3][..2] == d[..2] && d[..2][..1] == d[..1] && d[..1][..0] == [];
    assert Value(d[..1], 256) == f[4];
    assert Value(d[..2], 256) == Value(d[..1], 256) * 256 + f[5];
    assert Value(d[..3], 256) == Value(d[..2], 256) * 256 + f[6];
    assert Value(d[..4], 256) == Value(d[..3], 256) * 256 + f[7];
    assert Value(d[..5], 256) == Value(d[..4], 256) * 256 + f[8];
    assert Value(d[..6], 256) == Value(d[..5], 256) * 256 + f[9];
    assert Value(d[..7], 256) == Value(d[..6], 256) * 256 + f[10];
    assert Value(d, 256) == Value(d[..7], 256) * 256 + f[11];
  }

  lemma PowerOf8()
    ensures Power(8, 7) == 0x20_0000 && Power(8, 11) == 0x2_0000_0000
  {
    assert Power(8, 3) == 512;
    assert Power(8, 5) == 8 * (8 * Power(8, 3));
    assert Power(8, 7) == 8 * (8 * Power(8, 5));
    assert Power(8, 9) == 8 * (8 * Power(8, 7));
    assert Power(8, 11) == 8 * (8 * Power(8, 9));
  }

  lemma PowerOf256()
    ensures Power(256, 8) == U64_MAX + 1
  {
    assert Power(256, 2) == 0x1_0000;
    assert Power(256, 4) == 256 * (256 * Power(256, 2));
    assert Power(256, 6) == 256 * (256 * Power(256, 4));
    assert Power(256, 8) == 256 * (256 * Power(256, 6));
  }

  // ---- Checksum ----

  function Sum(s: bytes): (n: nat)
    ensures n <= 255 * |s|
  {
    if s == [] then 0 else s[0] + Sum(s[1..])
  }

  /** The header's bytes summed with the checksum field read as eight spaces. */
  function Checksum(h: bytes): (n: nat)
    requires |h| == BLOCK
  {
    Sum(h[..148]) + 8 * SPACE + Sum(h[156..])
  }

  predicate ChecksumMatches(h: bytes)
    requires |h| == BLOCK
  {
    ReadOctal(h[148..156]) == Some(Checksum(h))
  }

  lemma {:induction false} SumOfZeros(n: nat)
    ensures Sum(Zeros(n)) == 0
  {
    if n > 0 {
      assert Zeros(n)[1..] == Zeros(n - 1);
      SumOfZeros(n - 1);
    }
  }

  lemma {:induction false} SumUpdate(s: bytes, i: nat, b: byte)
    requires i < |s|
    ensures Sum(s[i := b]) == Sum(s) - s[i] + b
  {
    if i == 0 {
      assert s[i := b][1..] == s[1..];
    } else {
      assert s[i := b][1..] == s[1..][i - 1 := b];
      SumUpdate(s[1..], i - 1, b);
    }
  }

  /** Eight spaces are all there is to a block of zeros. */
  lemma ChecksumOfZeros()
    ensures Checksum(Zeros(512)) == 256
  {
    assert Zeros(512)[..148] == Zeros(148) && Zeros(512)[156..] == Zeros(356);
    SumOfZeros(148);
    SumOfZeros(356);
  }

  /** Every byte of the header counts with its value, except the eight of the checksum field, which
      do not count at all. */
  lemma ChecksumByByte(h: bytes, i: nat, b: byte)
    requires |h| == 512 && i < 512
    ensures Checksum(h[i := b]) == if 148 <= i < 156 then Checksum(h) else Checksum(h) - h[i] + b
  {
    hide Sum;
    var g := h[i := b];
    if i < 148 {
      SumUpdate(h[..148], i, b);
      assert g[..148] == h[..148][i := b] && g[156..] == h[156..];
    } else if i < 156 {
      assert g[..148] == h[..148] && g[156..] == h[156..];
    } else {
      SumUpdate(h[156..], i - 156, b);
      assert g[..148] == h[..148] && g[156..] == h[156..][i - 156 := b];
    }
  }

  /** A matching header with one byte outside the field changed no longer matches. */
  lemma OneByteIsNoticed(h: bytes, i: nat, b: byte)
    requires |h| == 512 && ChecksumMatches(h) && i < 512 && !(148 <= i < 156) && b != h[i]
    ensures !ChecksumMatches(h[i := b])
  {
    hide Checksum, ReadOctal;
    ChecksumByByte(h, i, b);
    assert h[i := b][148..156] == h[148..156];
  }

  // ---- Path ----

  datatype UstarPath = UstarPath(prefix: bytes, name: bytes)

  const NAME_WIDTH: nat := 100
  const PREFIX_WIDTH: nat := 155

  /** Index of the last slash of `path` at or before `limit`. */
  function LastSlash(path: bytes, limit: nat): (r: Option<nat>)
    requires limit < |path|
    ensures r.Some? ==> r.value <= limit && path[r.value] == SLASH
    ensures forall j :: 0 <= j <= limit && path[j] == SLASH ==> r.Some? && j <= r.value
  {
    if path[limit] == SLASH then Some(limit)
    else if limit == 0 then None
    else LastSlash(path, limit - 1)
  }

  /** A path longer than the name field is cut at the last slash that fits the prefix field. */
  function SplitPath(path: bytes): (r: Option<UstarPath>)
    ensures r.Some? ==> |r.value.name| <= NAME_WIDTH && |r.value.prefix| <= PREFIX_WIDTH
    ensures r.Some? ==>
              path == if r.value.prefix == [] then r.value.name else r.value.prefix + [SLASH] + r.value.name
  {
    if |path| <= NAME_WIDTH then Some(UstarPath([], path))
    else
      match LastSlash(path, if |path| <= PREFIX_WIDTH then |path| - 1 else PREFIX_WIDTH)
      case None => None
      case Some(cut) =>
        if cut > 0 && |path| - cut - 1 <= NAME_WIDTH then Some(UstarPath(path[..cut], path[cut + 1..]))
        else None
  }

  /** The cut is found whenever there is one. */
  lemma SplitPathComplete(path: bytes)
    requires path != [] && path[0] != SLASH
    ensures SplitPath(path).Some? <==>
            || |path| <= NAME_WIDTH
            || (exists cut :: 0 < cut <= PREFIX_WIDTH && cut < |path| && path[cut] == SLASH && |path| - cut - 1 <= NAME_WIDTH)
  {
    if |path| > NAME_WIDTH && SplitPath(path).Some? {
      var cut := |SplitPath(path).value.prefix|;
      assert path[cut] == SLASH;
    }
  }

  /** The path a header names; only a ustar header has a prefix field. */
  function HeaderPath(h: bytes): (path: bytes)
    requires |h| == BLOCK
  {
    var name := Truncate(h[..100]);
    var prefix := Truncate(h[345..500]);
    if h[257..265] == USTAR_MAGIC && prefix != [] then prefix + [SLASH] + name else name
  }

  predicate RegularFileType(h: bytes)
    requires |h| == BLOCK
  {
    h[156] == DIGIT_ZERO || h[156] == 0
  }

  /** Only `0` and NUL stand for a regular file. */
  lemma RegularFileTypes(h: bytes)
    requires |h| == 512
    ensures RegularFileType(h) <==> h[156..157] == [0x30] || h[156..157] == [0]
  {
  }

  /** A header without the magic, or with an empty prefix field, is named by its name field alone. */
  lemma NameOnly(h: bytes, name: bytes)
    requires |h| == 512 && |name| <= 100 && 0 !in name && h[..|name|] == name && (|name| < 100 ==> h[|name|] == 0)
    requires h[257..265] != [0x75, 0x73, 0x74, 0x61, 0x72, 0, 0x30, 0x30] || h[345] == 0
    ensures HeaderPath(h) == name
  {
    assert h[..100] == name + h[|name|..100];
    TruncateAtNul(name, h[|name|..100]);
  }

  // ---- The header as a whole ----

  function PadTo(s: bytes, width: nat): (r: bytes)
    requires |s| <= width
    ensures |r| == width
  {
    s + Zeros(width - |s|)
  }

  function BeforeChecksum(path: UstarPath, size: nat): (s: bytes)
    requires |path.name| <= NAME_WIDTH
    ensures |s| == 148
  {
    PadTo(path.name, NAME_WIDTH) + (OctalField(0x180, 8) + OctalField(0, 8) + OctalField(0, 8))
    + SizeField(size) + OctalField(0, 12)
  }

  function AfterChecksum(path: UstarPath): (s: bytes)
    requires |path.prefix| <= PREFIX_WIDTH
    ensures |s| == 356
  {
    [DIGIT_ZERO] + Zeros(100) + USTAR_MAGIC + Zeros(80) + PadTo(path.prefix, PREFIX_WIDTH) + Zeros(12)
  }

  /** `deterministic_header`: mode 0600, zero owner, group and time, regular file. */
  function Header(path: UstarPath, size: nat): (h: bytes)
    requires |path.name| <= NAME_WIDTH && |path.prefix| <= PREFIX_WIDTH
    ensures |h| == BLOCK
  {
    var before := BeforeChecksum(path, size);
    var after := AfterChecksum(path);
    before + OctalField(Sum(before) + 8 * SPACE + Sum(after), 8) + after
  }

  lemma HeaderFields(path: UstarPath, size: nat)
    requires |path.name| <= NAME_WIDTH && |path.prefix| <= PREFIX_WIDTH
    ensures var h := Header(path, size);
            && h[..148] == BeforeChecksum(path, size)
            && h[148..156] == OctalField(Checksum(h), 8)
            && h[156..] == AfterChecksum(path)
  {
    var h := Header(path, size);
    assert h[..148] == BeforeChecksum(path, size);
    assert h[156..] == AfterChecksum(path);
  }

  lemma BeforeLayout(path: UstarPath, size: nat)
    requires |path.name| <= 100
    ensures var s := BeforeChecksum(path, size);
            && s[..|path.name|] == path.name && AllZero(s[|path.name|..100])
            && s[100..108] == [0x30, 0x30, 0x30, 0x30, 0x36, 0x30, 0x30, 0]
            && s[108..116] == s[116..124] == [0x30, 0x30, 0x30, 0x30, 0x30, 0x30, 0x30, 0]
            && s[124..136] == SizeField(size)
            && s[136..148] == [0x30, 0x30, 0x30, 0x30, 0x30, 0x30, 0x30, 0x30, 0x30, 0x30, 0x30, 0]
  {
    hide SizeField, OctalField;
    OctalExamples();
  }

  lemma AfterLayout(path: UstarPath)
    requires |path.prefix| <= 155
    ensures var s := AfterChecksum(path);
            && s[0] == 0x30 && AllZero(s[1..101])
            && s[101..109] == [0x75, 0x73, 0x74, 0x61, 0x72, 0, 0x30, 0x30]
            && AllZero(s[109..189])
            && s[189..189 + |path.prefix|] == path.prefix && AllZero(s[189 + |path.prefix|..356])
  {
  }

  /** Where everything is, byte by byte: name, mode 0600, zero owner and group, size, zero time,
      checksum, regular type, no link, `ustar` 00, no names or devices, prefix. */
  lemma HeaderLayout(path: UstarPath, size: nat)
    requires |path.name| <= 100 && |path.prefix| <= 155
    ensures var h := Header(path, size);
            && |h| == 512
            && h[..|path.name|] == path.name && AllZero(h[|path.name|..100])
            && h[100..108] == [0x30, 0x30, 0x30, 0x30, 0x36, 0x30, 0x30, 0]
            && h[108..116] == h[116..124] == [0x30, 0x30, 0x30, 0x30, 0x30, 0x30, 0x30, 0]
            && h[124..136] == SizeField(size)
            && h[136..148] == [0x30, 0x30, 0x30, 0x30, 0x30, 0x30, 0x30, 0x30, 0x30, 0x30, 0x30, 0]
            && h[148..156] == OctalField(Checksum(h), 8)
            && h[156] == 0x30 && AllZero(h[157..257])
            && h[257..265] == [0x75, 0x73, 0x74, 0x61, 0x72, 0, 0x30, 0x30]
            && AllZero(h[265..345])
            && h[345..345 + |path.prefix|] == path.prefix && AllZero(h[345 + |path.prefix|..512])
  {
    hide Sum, SizeField, OctalField, BeforeChecksum, AfterChecksum, Header, Checksum;
    var h, before, after := Header(path, size), BeforeChecksum(path, size), AfterChecksum(path);
    HeaderFields(path, size);
    BeforeLayout(path, size);
    AfterLayout(path);
    var n, m := |path.name|, |path.prefix|;
    assert h[..n] == before[..n] && h[n..100] == before[n..100] && h[100..108] == before[100..108];
    assert h[108..116] == before[108..116] && h[116..124] == before[116..124];
    assert h[124..136] == before[124..136] && h[136..148] == before[136..148];
    SliceOfDrop(h, 156, 1, 101);
    SliceOfDrop(h, 156, 101, 109);
    SliceOfDrop(h, 156, 109, 189);
    SliceOfDrop(h, 156, 189, 189 + m);
    SliceOfDrop(h, 156, 189 + m, 356);
    assert h[156] == after[0];
  }

  /** The fields of constant value, and a size on either side of eight gibibytes. */
  lemma OctalExamples()
    ensures OctalField(0x180, 8) == [0x30, 0x30, 0x30, 0x30, 0x36, 0x30, 0x30, 0]
    ensures OctalField(0, 8) == [0x30, 0x30, 0x30, 0x30, 0x30, 0x30, 0x30, 0]
    ensures OctalField(0, 12) == [0x30, 0x30, 0x30, 0x30, 0x30, 0x30, 0x30, 0x30, 0x30, 0x30, 0x30, 0]
  {
    ZeroDigits(7, 8);
    ZeroDigits(11, 8);
    ZeroDigits(4, 8);
    var d4: seq<nat> := [0, 0, 0, 0];
    assert Digits(0, 4, 8) == d4;
    assert Digits(6, 5, 8) == d4 + [6];
    assert Digits(0x30, 6, 8) == d4 + [6] + [0];
    assert Digits(0x180, 7, 8) == d4 + [6] + [0] + [0];
  }

  lemma {:induction false} ZeroDigits(n: nat, base: nat)
    requires base == 8 || base == 256
    ensures Digits(0, n, base) == seq(n, i => 0)
  {
    if n > 0 {
      ZeroDigits(n - 1, base);
    }
  }

  lemma BinaryDigits()
    ensures Digits(0x2_0000_0000, 8, 256) == [0, 0, 0, 2, 0, 0, 0, 0]
  {
    var d3: seq<nat> := [0, 0, 0];
    ZeroDigits(3, 256);
    assert Digits(0, 3, 256) == d3;
    assert Digits(2, 4, 256) == d3 + [2];
    assert Digits(0x200, 5, 256) == d3 + [2] + [0];
    assert Digits(0x2_0000, 6, 256) == d3 + [2] + [0] + [0];
    assert Digits(0x200_0000, 7, 256) == d3 + [2] + [0] + [0] + [0];
    assert Digits(0x2_0000_0000, 8, 256) == d3 + [2] + [0] + [0] + [0] + [0];
  }

  /** Sizes: octal up to eleven digits, then eight big-endian bytes after a marker. */
  lemma SizeExamples()
    ensures SizeField(0x1_FFFF_FFFF) == [0x37, 0x37, 0x37, 0x37, 0x37, 0x37, 0x37, 0x37, 0x37, 0x37, 0x37, 0]
    ensures SizeField(0x2_0000_0000) == [0x80, 0, 0, 0, 0, 0, 0, 2, 0, 0, 0, 0]
  {
    hide Digits, Power;
    BinaryDigits();
    AllSevens(11);
    PowerOf8();
  }

  lemma {:induction false} AllSevens(n: nat)
    ensures Power(8, n) >= 1 && Digits(Power(8, n) - 1, n, 8) == seq(n, i => 7)
  {
    if n > 0 {
      AllSevens(n - 1);
      assert Power(8, n) - 1 == 8 * (Power(8, n - 1) - 1) + 7;
    }
  }

  lemma BeforeChecksumFields(path: UstarPath, size: nat)
    requires |path.name| <= NAME_WIDTH
    ensures var s := BeforeChecksum(path, size);
            s[..100] == PadTo(path.name, NAME_WIDTH) && s[124..136] == SizeField(size)
  {
  }

  lemma AfterChecksumFields(path: UstarPath)
    requires |path.prefix| <= PREFIX_WIDTH
    ensures var s := AfterChecksum(path);
            && s[0] == DIGIT_ZERO
            && s[101..109] == USTAR_MAGIC
            && s[189..344] == PadTo(path.prefix, PREFIX_WIDTH)
  {
  }

  lemma ReadPadded(s: bytes, width: nat)
    requires 0 !in s && |s| <= width
    ensures Truncate(PadTo(s, width)) == s
  {
    TruncateAtNul(s, Zeros(width - |s|));
  }

  /** Reading a written header gives back the path and the size, with a matching checksum. */
  lemma HeaderRoundTrip(path: bytes, size: nat)
    requires SplitPath(path).Some? && 0 !in path && size <= U64_MAX
    ensures var h := Header(SplitPath(path).value, size);
            && ChecksumMatches(h)
            && RegularFileType(h)
            && HeaderPath(h) == path
            && ReadSize(h[124..136]) == Some(size)
  {
    var split := SplitPath(path).value;
    var h := Header(split, size);
    HeaderFields(split, size);
    BeforeChecksumFields(split, size);
    AfterChecksumFields(split);
    assert h[124..136] == h[..148][124..136];
    SizeRoundTrip(size);
    PowerOf8();
    OctalRoundTrip(Checksum(h), 8);
    assert h[156] == h[156..][0];
    HeaderPathRoundTrip(path, h);
  }

  lemma NoNulInParts(path: bytes)
    requires SplitPath(path).Some? && 0 !in path
    ensures 0 !in SplitPath(path).value.name && 0 !in SplitPath(path).value.prefix
  {
    var UstarPath(prefix, name) := SplitPath(path).value;
    if prefix != [] {
      assert path == prefix + [SLASH] + name;
      forall b | b in prefix || b in name ensures b in path {
      }
    }
  }

  lemma HeaderPathRoundTrip(path: bytes, h: bytes)
    requires SplitPath(path).Some? && 0 !in path && |h| == BLOCK
    requires h[..148][..100] == PadTo(SplitPath(path).value.name, NAME_WIDTH)
    requires h[156..][101..109] == USTAR_MAGIC
    requires h[156..][189..344] == PadTo(SplitPath(path).value.prefix, PREFIX_WIDTH)
    ensures HeaderPath(h) == path
  {
    var split := SplitPath(path).value;
    assert h[..100] == h[..148][..100];
    SliceOfDrop(h, 156, 101, 109);
    SliceOfDrop(h, 156, 189, 344);
    NoNulInParts(path);
    ReadPadded(split.name, NAME_WIDTH);
    ReadPadded(split.prefix, PREFIX_WIDTH);
  }

  /** A block of zeros is not a header. */
  lemma ZeroBlockIsNoHeader(h: bytes)
    requires |h| == BLOCK && AllZero(h)
    ensures !ChecksumMatches(h)
  {
    assert Truncate(h[148..156]) == [];
  }
}
