/**
 * The Linux branch of the code checksum in src/localsports/src/rasp.cpp: find
 * the first section named ".text" in the ELF64 section header table of the
 * executable image, hash exactly its bytes with SHA-256 and render the digest
 * as lowercase hex.
 *
 * The image is a byte sequence and SHA-256 a parameter. Every read the source
 * makes through an unchecked pointer is a checked read here: a read outside
 * the image makes the search Malformed, and the checksum is then "".
 */
module Elf {
  import opened Common

  type Digest = d: Bytes | |d| == 32 witness seq(32, _ => 0)

  /** Byte offsets in the ELF64 file header and section header (Elf64_Ehdr, Elf64_Shdr). */
  const E_SHOFF := 0x28
  const E_SHNUM := 0x3c
  const E_SHSTRNDX := 0x3e
  const SHDR_SIZE := 64
  const SH_OFFSET := 0x18
  const SH_SIZE := 0x20

  /** ".text" and its terminating NUL. */
  const TEXT_NAME: Bytes := [0x2e, 0x74, 0x65, 0x78, 0x74, 0x00]

  // ---------------- Little-endian fields ----------------

  /** The unsigned little-endian value of a byte string. */
  function LittleEndian(s: Bytes): nat
  {
    if s == [] then 0 else s[0] as nat + 0x100 * LittleEndian(s[1..])
  }

  /** An n-byte little-endian field at `at`; None when it lies outside the image. */
  function Field(img: Bytes, at: nat, n: nat): Option<nat>
  {
    if at + n <= |img| then Some(LittleEndian(img[at..at + n])) else None
  }

  predicate HasElfMagic(img: Bytes)
  {
    |img| >= 4 && img[0] == 0x7f && img[1] == 0x45 && img[2] == 0x4c && img[3] == 0x46
  }

  datatype SectionHeader = SectionHeader(name: nat, offset: nat, size: nat)

  /** The sh_name field (the first 4 bytes) of entry j of the section header table at `shoff`. */
  function NameField(img: Bytes, shoff: nat, j: nat): Option<nat>
  {
    Field(img, shoff + SHDR_SIZE * j, 4)
  }

  /** Entry j of the section header table at `shoff`: sh_name, sh_offset and sh_size, the last ending 0x28 bytes in. */
  function SectionAt(img: Bytes, shoff: nat, j: nat): Option<SectionHeader>
  {
    var base := shoff + SHDR_SIZE * j;
    if base + SH_SIZE + 8 <= |img| then
      Some(SectionHeader(Field(img, base, 4).value, Field(img, base + SH_OFFSET, 8).value, Field(img, base + SH_SIZE, 8).value))
    else None
  }

  /**
   * strcmp(&img[at], ".text") == 0: bytes are compared until the first
   * difference or the common NUL. None when the comparison would read past
   * the end of the image.
   */
  function NameIsText(img: Bytes, at: nat): Option<bool>
  {
    NameFrom(img, at, 0)
  }

  function NameFrom(img: Bytes, at: nat, k: nat): Option<bool>
    requires k < |TEXT_NAME|
    decreases |TEXT_NAME| - k
  {
    if at + k >= |img| then None
    else if img[at + k] != TEXT_NAME[k] then Some(false)
    else if k == |TEXT_NAME| - 1 then Some(true)
    else NameFrom(img, at, k + 1)
  }

  /** Only an exact ".text" C string at `at` is recognised. */
  lemma {:induction false} NameFromMatches(img: Bytes, at: nat, k: nat)
    requires k < |TEXT_NAME|
    requires NameFrom(img, at, k) == Some(true)
    ensures at + |TEXT_NAME| <= |img|
    ensures forall m :: k <= m < |TEXT_NAME| ==> img[at + m] == TEXT_NAME[m]
    decreases |TEXT_NAME| - k
  {
    if k < |TEXT_NAME| - 1 {
      NameFromMatches(img, at, k + 1);
    }
  }

  /** strcmp equality: the name is recognised exactly when the image holds ".text" and a NUL at `at`. */
  lemma NameIsTextExactly(img: Bytes, at: nat)
    ensures NameIsText(img, at) == Some(true) <==>
              at + |TEXT_NAME| <= |img| && img[at..at + |TEXT_NAME|] == TEXT_NAME
  {
    if NameIsText(img, at) == Some(true) {
      NameFromMatches(img, at, 0);
      assert img[at..at + |TEXT_NAME|] == TEXT_NAME;
    }
    if at + |TEXT_NAME| <= |img| && img[at..at + |TEXT_NAME|] == TEXT_NAME {
      NameFromExact(img, at, 0);
    }
  }

  /** An exact ".text" C string at `at` is recognised. */
  lemma {:induction false} NameFromExact(img: Bytes, at: nat, k: nat)
    requires k < |TEXT_NAME|
    requires at + |TEXT_NAME| <= |img| && img[at..at + |TEXT_NAME|] == TEXT_NAME
    ensures NameFrom(img, at, k) == Some(true)
    decreases |TEXT_NAME| - k
  {
    assert img[at + k] == img[at..at + |TEXT_NAME|][k];
    if k < |TEXT_NAME| - 1 {
      NameFromExact(img, at, k + 1);
    }
  }

  // ---------------- The section search ----------------

  datatype Search = Found(index: nat, header: SectionHeader) | NotFound | Malformed

  /**
   * Looking at header j, whose sh_name alone the loop reads: None when that
   * field or the name cannot be read, otherwise whether the name is ".text".
   */
  function Probe(img: Bytes, shoff: nat, strtab: nat, j: nat): (r: Option<bool>)
    ensures r.Some? ==> NameField(img, shoff, j).Some?
    ensures r.Some? ==> r == NameIsText(img, strtab + NameField(img, shoff, j).value)
  {
    match NameField(img, shoff, j)
    case None => None
    case Some(name) => NameIsText(img, strtab + name)
  }

  /** The probe of every header in a table of `shnum` entries. */
  function Probes(img: Bytes, shoff: nat, shnum: nat, strtab: nat): (ps: seq<Option<bool>>)
    ensures |ps| == shnum
    ensures forall j :: 0 <= j < shnum ==> ps[j] == Probe(img, shoff, strtab, j)
  {
    if shnum == 0 then [] else Probes(img, shoff, shnum - 1, strtab) + [Probe(img, shoff, strtab, shnum - 1)]
  }

  datatype Scan = Hit(index: nat) | Miss | Unreadable

  /** The loop over probes i, i+1, ..., stopping at the first ".text" or the first unreadable header. */
  function FirstHit(ps: seq<Option<bool>>, i: nat): Scan
    decreases |ps| - i
  {
    if i >= |ps| then Miss
    else match ps[i]
      case None => Unreadable
      case Some(true) => Hit(i)
      case Some(false) => FirstHit(ps, i + 1)
  }

  /** A hit is the first ".text": every earlier probe read a header named otherwise. */
  lemma {:induction false} FirstHitIsFirst(ps: seq<Option<bool>>, i: nat)
    requires FirstHit(ps, i).Hit?
    ensures i <= FirstHit(ps, i).index < |ps| && ps[FirstHit(ps, i).index] == Some(true)
    ensures forall j :: i <= j < FirstHit(ps, i).index ==> ps[j] == Some(false)
    decreases |ps| - i
  {
    if ps[i] == Some(false) {
      FirstHitIsFirst(ps, i + 1);
    }
  }

  /** When every probe reads a header named otherwise, the loop runs to the end. */
  lemma {:induction false} FirstHitMiss(ps: seq<Option<bool>>, i: nat)
    requires forall j :: i <= j < |ps| ==> ps[j] == Some(false)
    ensures FirstHit(ps, i) == Miss
    decreases |ps| - i
  {
    if i < |ps| {
      FirstHitMiss(ps, i + 1);
    }
  }

  /** The loop stops at the first probe that does not read a header named otherwise. */
  lemma {:induction false} FirstHitStops(ps: seq<Option<bool>>, i: nat, k: nat)
    requires i <= k < |ps| && ps[k] != Some(false)
    requires forall j :: i <= j < k ==> ps[j] == Some(false)
    ensures FirstHit(ps, i) == if ps[k] == Some(true) then Hit(k) else Unreadable
    decreases k - i
  {
    if i < k {
      FirstHitStops(ps, i + 1, k);
    }
  }

  /**
   * The result of the section search: the first ".text" header, none, or an
   * unreadable name before it. Only the hit's sh_offset and sh_size are read,
   * and Malformed also stands for those lying outside the image.
   */
  function SearchText(img: Bytes, shoff: nat, shnum: nat, strtab: nat): (r: Search)
    ensures r.Found? ==> r.index < shnum && SectionAt(img, shoff, r.index) == Some(r.header)
  {
    var ps := Probes(img, shoff, shnum, strtab);
    match FirstHit(ps, 0)
    case Hit(k) =>
      FirstHitIsFirst(ps, 0);
      (match SectionAt(img, shoff, k)
       case Some(h) => Found(k, h)
       case None => Malformed)
    case Miss => NotFound
    case Unreadable => Malformed
  }

  /** Header j is readable and its name is not ".text". */
  predicate NamedOtherwise(img: Bytes, shoff: nat, strtab: nat, j: nat)
  {
    Probe(img, shoff, strtab, j) == Some(false)
  }

  /** A found section is named ".text", and every earlier header was readable and named otherwise. */
  lemma SearchFindsFirst(img: Bytes, shoff: nat, shnum: nat, strtab: nat)
    requires SearchText(img, shoff, shnum, strtab).Found?
    ensures var f := SearchText(img, shoff, shnum, strtab);
            NameIsText(img, strtab + f.header.name) == Some(true) &&
            forall j :: 0 <= j < f.index ==> NamedOtherwise(img, shoff, strtab, j)
  {
    var ps := Probes(img, shoff, shnum, strtab);
    FirstHitIsFirst(ps, 0);
    var k := FirstHit(ps, 0).index;
    var h := SectionAt(img, shoff, k).value;
    assert SearchText(img, shoff, shnum, strtab) == Found(k, h);
    assert Probe(img, shoff, strtab, k) == ps[k] == Some(true);
    forall j | 0 <= j < k
      ensures NamedOtherwise(img, shoff, strtab, j)
    {
      assert Probe(img, shoff, strtab, j) == ps[j];
    }
  }

  /**
   * Conversely, the first readable header named ".text" after headers named
   * otherwise is the one found; an unreadable header there instead makes the
   * table malformed.
   */
  lemma SearchFindsText(img: Bytes, shoff: nat, shnum: nat, strtab: nat, k: nat)
    requires k < shnum && Probe(img, shoff, strtab, k) != Some(false)
    requires forall j :: 0 <= j < k ==> NamedOtherwise(img, shoff, strtab, j)
    ensures Probe(img, shoff, strtab, k) == Some(true) ==>
              SearchText(img, shoff, shnum, strtab) ==
                (if SectionAt(img, shoff, k).Some? then Found(k, SectionAt(img, shoff, k).value) else Malformed)
    ensures Probe(img, shoff, strtab, k).None? ==> SearchText(img, shoff, shnum, strtab) == Malformed
  {
    var ps := Probes(img, shoff, shnum, strtab);
    forall j | 0 <= j < k
      ensures ps[j] == Some(false)
    {
      assert NamedOtherwise(img, shoff, strtab, j);
    }
    FirstHitStops(ps, 0, k);
  }

  /** When every header is readable and no name is ".text", nothing is found. */
  lemma SearchNoText(img: Bytes, shoff: nat, shnum: nat, strtab: nat)
    requires forall j :: 0 <= j < shnum ==> NamedOtherwise(img, shoff, strtab, j)
    ensures SearchText(img, shoff, shnum, strtab) == NotFound
  {
    var ps := Probes(img, shoff, shnum, strtab);
    forall j | 0 <= j < |ps|
      ensures ps[j] == Some(false)
    {
      assert NamedOtherwise(img, shoff, strtab, j);
    }
    FirstHitMiss(ps, 0);
  }

  /** The `for (int i = 0; i < e_shnum; ++i)` loop of CalculateTextSectionChecksum. */
  method FindTextSection(img: Bytes, shoff: nat, shnum: nat, strtab: nat) returns (r: Search)
    ensures r == SearchText(img, shoff, shnum, strtab)
  {
    ghost var ps := Probes(img, shoff, shnum, strtab);
    var i := 0;
    while i < shnum
      invariant 0 <= i <= shnum
      invariant FirstHit(ps, 0) == FirstHit(ps, i)
      decreases shnum - i
    {
      assert ps[i] == Probe(img, shoff, strtab, i);
      var name := NameField(img, shoff, i);
      if name.None? {
        assert FirstHit(ps, i) == Unreadable;
        return Malformed;
      }
      var m := NameIsText(img, strtab + name.value);
      if m.None? {
        assert FirstHit(ps, i) == Unreadable;
        return Malformed;
      }
      if m.value {
        assert FirstHit(ps, i) == Hit(i);
        var h := SectionAt(img, shoff, i);
        if h.None? {
          return Malformed;
        }
        return Found(i, h.value);
      }
      assert FirstHit(ps, i) == FirstHit(ps, i + 1);
      i := i + 1;
    }
    r := NotFound;
  }

  /** The section table location and the string table offset, read as the source reads them. */
  datatype Layout = Layout(shoff: nat, shnum: nat, strtab: nat)

  /** The string table's offset is the sh_offset field alone of header e_shstrndx. */
  function StrtabAt(img: Bytes, shoff: nat, strndx: nat): Option<nat>
  {
    Field(img, shoff + SHDR_SIZE * strndx + SH_OFFSET, 8)
  }

  /**
   * e_shoff, e_shnum and e_shstrndx, then the one sh_offset field the source
   * reads from the string table's header: readable exactly when the file
   * header and those 8 bytes lie in the image.
   */
  function ReadLayout(img: Bytes): (r: Option<Layout>)
    ensures r.Some? <==> E_SHSTRNDX + 2 <= |img| &&
                         StrtabAt(img, Field(img, E_SHOFF, 8).value, Field(img, E_SHSTRNDX, 2).value).Some?
    ensures r.Some? ==>
              r.value.shoff == Field(img, E_SHOFF, 8).value && r.value.shnum == Field(img, E_SHNUM, 2).value &&
              r.value.strtab == StrtabAt(img, r.value.shoff, Field(img, E_SHSTRNDX, 2).value).value
  {
    match (Field(img, E_SHOFF, 8), Field(img, E_SHNUM, 2), Field(img, E_SHSTRNDX, 2))
    case (Some(shoff), Some(shnum), Some(strndx)) =>
      (match StrtabAt(img, shoff, strndx)
       case Some(off) => Some(Layout(shoff, shnum, off))
       case None => None)
    case _ => None
  }

  /**
   * The bytes the checksum covers: [sh_offset, sh_offset + sh_size) of the
   * first ".text" section. None (the "" result) for a file without the ELF
   * magic, with no ".text" section, or with a read outside the image.
   */
  function TextSection(img: Bytes): (r: Option<Bytes>)
    ensures !HasElfMagic(img) ==> r.None?
    ensures r.Some? ==> HasElfMagic(img) && ReadLayout(img).Some?
    ensures r.Some? ==>
              var l := ReadLayout(img).value;
              var f := SearchText(img, l.shoff, l.shnum, l.strtab);
              f.Found? && f.header.offset + f.header.size <= |img| &&
              r.value == img[f.header.offset..f.header.offset + f.header.size]
    ensures HasElfMagic(img) && ReadLayout(img).Some? ==>
              var l := ReadLayout(img).value;
              var f := SearchText(img, l.shoff, l.shnum, l.strtab);
              f.Found? && f.header.offset + f.header.size <= |img| ==>
                r == Some(img[f.header.offset..f.header.offset + f.header.size])
  {
    if !HasElfMagic(img) then None
    else match ReadLayout(img)
      case None => None
      case Some(l) => SectionBytes(img, SearchText(img, l.shoff, l.shnum, l.strtab))
  }

  /** The bytes of a found section, when they lie inside the image. */
  function SectionBytes(img: Bytes, f: Search): Option<Bytes>
  {
    if f.Found? && f.header.offset + f.header.size <= |img| then Some(img[f.header.offset..f.header.offset + f.header.size])
    else None
  }

  // ---------------- BytesToHex ----------------

  /** A lowercase hex digit, as `std::hex` prints it. */
  function HexDigit(n: nat): (c: char)
    requires n < 16
  {
    if n < 10 then (0x30 + n) as char else (0x61 + n - 10) as char
  }

  predicate IsHexDigit(c: char)
  {
    ('0' <= c <= '9') || ('a' <= c <= 'f')
  }

  /** The value of a hex digit; 0 for any other character. */
  function HexValue(c: char): (n: nat)
    ensures n < 16
  {
    if '0' <= c <= '9' then (c as int) - 0x30
    else if 'a' <= c <= 'f' then (c as int) - 0x61 + 10
    else 0
  }

  lemma HexDigitValue(n: nat)
    requires n < 16
    ensures IsHexDigit(HexDigit(n)) && HexValue(HexDigit(n)) == n
  {
  }

  /** Two hex digits per byte, high nibble first (`setw(2)` with fill '0'). */
  function Hex(b: Bytes): string
  {
    if b == [] then []
    else
      var x := b[|b| - 1] as nat;
      Hex(b[..|b| - 1]) + [HexDigit(x / 16), HexDigit(x % 16)]
  }

  predicate AllHex(s: string)
  {
    forall i :: 0 <= i < |s| ==> IsHexDigit(s[i])
  }

  lemma {:induction false} HexShape(b: Bytes)
    ensures |Hex(b)| == 2 * |b|
    ensures AllHex(Hex(b))
  {
    if b != [] {
      HexShape(b[..|b| - 1]);
      var x := b[|b| - 1] as nat;
      HexDigitValue(x / 16);
      HexDigitValue(x % 16);
    }
  }

  /** Parsing two hex digits per byte, the inverse of Hex. */
  function FromHex(s: string): Bytes
  {
    if |s| < 2 then []
    else FromHex(s[..|s| - 2]) + [Nibbles(HexValue(s[|s| - 2]), HexValue(s[|s| - 1]))]
  }

  /** The byte with high nibble `hi` and low nibble `lo`. */
  function Nibbles(hi: nat, lo: nat): byte
    requires hi < 16 && lo < 16
  {
    (16 * hi + lo) as byte
  }

  lemma ByteNibbles(x: byte, hi: nat, lo: nat)
    requires hi == (x as nat) / 16 && lo == (x as nat) % 16
    ensures Nibbles(hi, lo) == x
  {
    assert 16 * hi + lo == x as nat;
  }

  /** FromHex peels the last two digits. */
  lemma FromHexLast(s: string, init: string, c1: char, c2: char)
    requires s == init + [c1, c2]
    ensures FromHex(s) == FromHex(init) + [Nibbles(HexValue(c1), HexValue(c2))]
  {
    assert s[..|s| - 2] == init;
    assert s[|s| - 2] == c1 && s[|s| - 1] == c2;
  }

  lemma SplitLast(b: Bytes)
    requires b != []
    ensures b == b[..|b| - 1] + [b[|b| - 1]]
  {
  }

  lemma {:induction false} HexRoundTrip(b: Bytes)
    ensures FromHex(Hex(b)) == b
  {
    if b != [] {
      var init := b[..|b| - 1];
      var x := b[|b| - 1];
      var d1, d2 := HexDigit(x as nat / 16), HexDigit(x as nat % 16);
      assert Hex(b) == Hex(init) + [d1, d2];
      HexRoundTrip(init);
      HexDigitValue(x as nat / 16);
      HexDigitValue(x as nat % 16);
      FromHexLast(Hex(b), Hex(init), d1, d2);
      ByteNibbles(x, HexValue(d1), HexValue(d2));
      SplitLast(b);
    }
  }

  /** BytesToHex: the byte loop appending two digits per byte. */
  method BytesToHex(data: Bytes) returns (s: string)
    ensures s == Hex(data)
    ensures |s| == 2 * |data| && AllHex(s)
  {
    s := [];
    var i := 0;
    while i < |data|
      invariant 0 <= i <= |data|
      invariant s == Hex(data[..i])
    {
      assert data[..i + 1][..i] == data[..i];
      var x := data[i] as nat;
      s := s + [HexDigit(x / 16), HexDigit(x % 16)];
      i := i + 1;
    }
    assert data[..i] == data;
    HexShape(data);
  }

  /** A SHA-256 digest renders as 64 hex digits, so a computed checksum is never "". */
  lemma DigestHexLength(d: Digest)
    ensures |Hex(d)| == 64 && Hex(d) != []
  {
    HexShape(d);
  }

  /** The checksum of an image: "" when it cannot be computed, else the hex of the digest of the .text bytes. */
  function TextChecksum(image: Option<Bytes>, sha256: Bytes -> Digest): (r: string)
    ensures r != [] <==> image.Some? && TextSection(image.value).Some?
    ensures r != [] ==> |r| == 64 && AllHex(r)
    ensures r != [] ==> r == Hex(sha256(TextSection(image.value).value))
  {
    if image.None? then []
    else match TextSection(image.value)
      case None => []
      case Some(t) => DigestHexLength(sha256(t)); HexShape(sha256(t)); Hex(sha256(t))
  }

  /**
   * CalculateTextSectionChecksum (Linux): "" when /proc/self/exe cannot be
   * opened (`image` is None), when the magic is wrong, or when there is no
   * ".text" section; otherwise the hex SHA-256 of that section's bytes.
   */
  method CalculateTextSectionChecksum(image: Option<Bytes>, sha256: Bytes -> Digest) returns (s: string)
    ensures s == TextChecksum(image, sha256)
  {
    if image.None? {
      return [];
    }
    var img := image.value;
    if !HasElfMagic(img) {
      return [];
    }
    var layout := ReadLayout(img);
    if layout.None? {
      return [];
    }
    var l := layout.value;
    var f := FindTextSection(img, l.shoff, l.shnum, l.strtab);
    var text := SectionBytes(img, f);
    if text.None? {
      return [];
    }
    s := BytesToHex(sha256(text.value));
  }
}
