/** Reading an STL mesh file (src/read_stl.cpp) into a flat list of triangle
    corners, three per facet. The file is its sequence of bytes. A binary file
    is an 80-byte header, a little-endian 32-bit triangle count and one 50-byte
    record per triangle: a normal, three corners (three floats each) and a
    2-byte attribute. Anything else is read as ASCII text, word by word. The
    float decoding of a 12-byte corner and the parsing of a number word are
    done by the caller's `decode` and `number`. */
module Stl {
  import opened Wrappers
  import opened Geometry
  import opened Primitives

  type Byte = b: int | 0 <= b < 256

  /** `BINARY_STL_HEADER_SIZE`. */
  const HeaderSize: nat := 80
  /** `sizeof(uint32_t)`, the triangle count after the header. */
  const CountSize: nat := 4
  /** `sizeof(glm::vec3)`: three 4-byte floats. */
  const VertexSize: nat := 12
  /** `sizeof(uint16_t)`, the attribute byte count closing every record. */
  const AttributeSize: nat := 2
  /** `sizeof(float[4][3]) + sizeof(uint16_t)`: a normal, three corners and the
      attribute, 4 * 12 + 2 bytes. */
  const RecordSize: nat := 50
  const Uint32Limit: nat := 0x1_0000_0000

  /** `calc_expected_binary_stl_mesh_file_size`. */
  function ExpectedBinarySize(n: nat): (size: nat)
    requires n < Uint32Limit
    ensures size == 84 + 50 * n
  {
    HeaderSize + CountSize + n * RecordSize
  }

  /** A file size names at most one triangle count, and every binary size is
      84 more than a multiple of 50. */
  lemma ExpectedSizeDetermines(n: nat, m: nat)
    requires n < Uint32Limit && m < Uint32Limit
    ensures ExpectedBinarySize(n) == ExpectedBinarySize(m) <==> n == m
    ensures ExpectedBinarySize(n) >= HeaderSize + CountSize
    ensures (ExpectedBinarySize(n) - 84) % 50 == 0
  {
    assert ExpectedBinarySize(n) - 84 == 50 * n;
  }

  /** The little-endian `uint32_t` at byte `at`. */
  function Uint32At(file: seq<Byte>, at: nat): (n: nat)
    requires at + 4 <= |file|
    ensures n < Uint32Limit
  {
    var b0, b1, b2, b3: int := file[at], file[at + 1], file[at + 2], file[at + 3];
    b0 + 256 * (b1 + 256 * (b2 + 256 * b3))
  }

  /** The four little-endian bytes of a `uint32_t`. */
  function Uint32Bytes(n: nat): (bs: seq<Byte>)
    requires n < Uint32Limit
    ensures |bs| == 4
  {
    [n % 256, n / 256 % 256, n / 256 / 256 % 256, n / 256 / 256 / 256]
  }

  lemma Uint32RoundTrip(n: nat)
    requires n < Uint32Limit
    ensures Uint32At(Uint32Bytes(n), 0) == n
  {
    var q1 := n / 256;
    var q2 := q1 / 256;
    var q3 := q2 / 256;
    assert n == q1 * 256 + n % 256;
    assert q1 == q2 * 256 + q1 % 256;
    assert q2 == q3 * 256 + q2 % 256;
  }

  /** How `read_stl_mesh_file` treats a file: an empty file is refused; a file
      too short for the header and the count leaves the stream failed, so the
      ASCII walk that follows reads nothing; a file whose size is the expected
      binary size for its count is binary; anything else is ASCII. */
  datatype Format = Empty | Truncated | Binary(triangles: nat) | Ascii

  function Classify(file: seq<Byte>): (f: Format)
    ensures f.Binary? ==> f.triangles < Uint32Limit && |file| == ExpectedBinarySize(f.triangles)
  {
    if |file| == 0 then Empty
    else if |file| < HeaderSize + CountSize then Truncated
    else
      var n := Uint32At(file, HeaderSize);
      if |file| == ExpectedBinarySize(n) then Binary(n) else Ascii
  }

  // Binary files

  /** The first byte of record `i`: past the header, the count and `i`
      records of 50 bytes. */
  function RecordStart(i: nat): nat {
    84 + 50 * i
  }

  /** The corner whose 12 bytes start at `at`. */
  function VertexAt(file: seq<Byte>, at: nat, decode: seq<Byte> -> Vec3): Vec3
    requires at + VertexSize <= |file|
  {
    decode(file[at..at + VertexSize])
  }

  /** The triangle of record `i`: its normal is skipped, its three corners
      follow, and its attribute is skipped. */
  function RecordTriangle(file: seq<Byte>, i: nat, decode: seq<Byte> -> Vec3): (t: Triangle)
    requires RecordStart(i) + RecordSize <= |file|
    ensures t.a == VertexAt(file, RecordStart(i) + 12, decode)
    ensures t.b == VertexAt(file, RecordStart(i) + 24, decode)
    ensures t.c == VertexAt(file, RecordStart(i) + 36, decode)
  {
    var at := RecordStart(i) + VertexSize;
    Triangle(VertexAt(file, at, decode), VertexAt(file, at + VertexSize, decode),
             VertexAt(file, at + 2 * VertexSize, decode))
  }

  /** Corner `j` of record `i` is the 12 bytes after the normal and the
      corners before it. */
  lemma RecordCorner(file: seq<Byte>, i: nat, j: nat, decode: seq<Byte> -> Vec3)
    requires RecordStart(i) + RecordSize <= |file| && j < 3
    ensures RecordTriangle(file, i, decode).At(j) == VertexAt(file, RecordStart(i) + 12 * (j + 1), decode)
  {
  }

  /** The triangles of a binary file holding `n` records. */
  function BinaryTriangles(file: seq<Byte>, n: nat, decode: seq<Byte> -> Vec3): (ts: seq<Triangle>)
    requires n < Uint32Limit && |file| == ExpectedBinarySize(n)
    ensures |ts| == n
  {
    seq(n, i requires 0 <= i < n => RecordTriangle(file, i, decode))
  }

  /** `read_stl_mesh_file_binary`: record by record, skip the normal, read
      three corners, skip the attribute. */
  method ReadBinary(file: seq<Byte>, n: nat, decode: seq<Byte> -> Vec3) returns (vs: seq<Vec3>)
    requires n < Uint32Limit && |file| == ExpectedBinarySize(n)
    ensures |vs| == 3 * n
    ensures vs == Flatten(BinaryTriangles(file, n, decode))
  {
    ghost var tris := BinaryTriangles(file, n, decode);
    vs := [];
    var at := HeaderSize + CountSize;
    for i := 0 to n
      invariant at == RecordStart(i)
      invariant vs == Flatten(tris[..i])
    {
      at := at + VertexSize;
      for j := 0 to 3
        invariant at == RecordStart(i) + 12 * (j + 1)
        invariant vs == Flatten(tris[..i]) + tris[i].Vertices()[..j]
      {
        RecordCorner(file, i, j, decode);
        assert tris[i].Vertices()[..j + 1] == tris[i].Vertices()[..j] + [tris[i].At(j)];
        vs := vs + [VertexAt(file, at, decode)];
        at := at + VertexSize;
      }
      assert tris[..i + 1][..i] == tris[..i];
      at := at + AttributeSize;
    }
    assert tris[..n] == tris;
  }

  /** `encode` writes every corner in 12 bytes. */
  ghost predicate WritesVertex(encode: Vec3 -> seq<Byte>) {
    forall v :: |encode(v)| == VertexSize
  }

  /** ... and `decode` reads back what `encode` writes. */
  ghost predicate IsVertexCodec(encode: Vec3 -> seq<Byte>, decode: seq<Byte> -> Vec3) {
    WritesVertex(encode) && forall v :: decode(encode(v)) == v
  }

  /** One record as a writer lays it out. */
  function EncodeRecord(t: Triangle, normal: seq<Byte>, attribute: seq<Byte>, encode: Vec3 -> seq<Byte>): seq<Byte> {
    normal + encode(t.a) + encode(t.b) + encode(t.c) + attribute
  }

  function EncodeRecords(tris: seq<Triangle>, normal: seq<Byte>, attribute: seq<Byte>,
                         encode: Vec3 -> seq<Byte>): seq<Byte>
  {
    if tris == [] then []
    else EncodeRecords(tris[..|tris| - 1], normal, attribute, encode)
         + EncodeRecord(tris[|tris| - 1], normal, attribute, encode)
  }

  /** A binary STL file holding `tris`, every record with the same normal and
      attribute bytes. */
  function EncodeBinary(header: seq<Byte>, tris: seq<Triangle>, normal: seq<Byte>, attribute: seq<Byte>,
                        encode: Vec3 -> seq<Byte>): seq<Byte>
    requires |tris| < Uint32Limit
  {
    header + Uint32Bytes(|tris|) + EncodeRecords(tris, normal, attribute, encode)
  }

  /** Every record is `RecordSize` bytes long, and corner `j` of a record sits
      after its normal and the corners before it. */
  lemma RecordLayout(t: Triangle, normal: seq<Byte>, attribute: seq<Byte>, encode: Vec3 -> seq<Byte>, j: nat)
    requires |normal| == VertexSize && |attribute| == AttributeSize && WritesVertex(encode) && j < 3
    ensures |EncodeRecord(t, normal, attribute, encode)| == RecordSize
    ensures EncodeRecord(t, normal, attribute, encode)[12 * (j + 1)..12 * (j + 2)] == encode(t.At(j))
  {
    var n, a, b, c := normal, encode(t.a), encode(t.b), encode(t.c);
    assert EncodeRecord(t, normal, attribute, encode) == n + (a + (b + (c + attribute)));
  }

  /** The encoding is `RecordSize` bytes per triangle, and record `i` sits at
      `RecordSize * i`. */
  lemma {:induction false} RecordsLayout(tris: seq<Triangle>, normal: seq<Byte>, attribute: seq<Byte>,
                                         encode: Vec3 -> seq<Byte>, i: nat)
    requires |normal| == VertexSize && |attribute| == AttributeSize && WritesVertex(encode)
    requires i <= |tris|
    ensures |EncodeRecords(tris, normal, attribute, encode)| == RecordSize * |tris|
    ensures i < |tris| ==>
              EncodeRecords(tris, normal, attribute, encode)[RecordSize * i..RecordSize * (i + 1)]
              == EncodeRecord(tris[i], normal, attribute, encode)
    decreases |tris|
  {
    if tris != [] {
      var init := tris[..|tris| - 1];
      var last := EncodeRecord(tris[|tris| - 1], normal, attribute, encode);
      RecordLayout(tris[|tris| - 1], normal, attribute, encode, 0);
      if i < |init| {
        RecordsLayout(init, normal, attribute, encode, i);
        assert tris[i] == init[i];
      } else {
        RecordsLayout(init, normal, attribute, encode, 0);
      }
    }
  }

  /** A slice of a slice. */
  lemma SliceOfSlice<T>(s: seq<T>, lo: nat, hi: nat, lo': nat, hi': nat)
    requires lo <= hi <= |s| && lo' <= hi' <= hi - lo
    ensures s[lo..hi][lo'..hi'] == s[lo + lo'..lo + hi']
  {
    forall k | 0 <= k < hi' - lo'
      ensures s[lo..hi][lo'..hi'][k] == s[lo + lo'..lo + hi'][k]
    {
      assert s[lo..hi][lo'..hi'][k] == s[lo..hi][lo' + k];
    }
  }

  /** A slice of the second part of a concatenation. */
  lemma SliceOfConcat<T>(a: seq<T>, b: seq<T>, lo: nat, hi: nat)
    requires lo <= hi <= |b|
    ensures (a + b)[|a| + lo..|a| + hi] == b[lo..hi]
  {
    forall k | 0 <= k < hi - lo
      ensures (a + b)[|a| + lo..|a| + hi][k] == b[lo..hi][k]
    {
      assert (a + b)[|a| + lo + k] == b[lo + k];
    }
  }

  /** Reading a written file gives back its triangles: the dispatch takes the
      binary path with the written count, and every record yields its own
      triangle. */
  lemma BinaryRoundTrip(header: seq<Byte>, tris: seq<Triangle>, normal: seq<Byte>, attribute: seq<Byte>,
                        encode: Vec3 -> seq<Byte>, decode: seq<Byte> -> Vec3)
    requires |header| == HeaderSize && |normal| == VertexSize && |attribute| == AttributeSize
    requires |tris| < Uint32Limit && IsVertexCodec(encode, decode)
    ensures var file := EncodeBinary(header, tris, normal, attribute, encode);
            Classify(file) == Binary(|tris|) && BinaryTriangles(file, |tris|, decode) == tris
  {
    var file := EncodeBinary(header, tris, normal, attribute, encode);
    var records := EncodeRecords(tris, normal, attribute, encode);
    var prefix := header + Uint32Bytes(|tris|);
    RecordsLayout(tris, normal, attribute, encode, 0);
    assert file == prefix + records;
    assert file[HeaderSize..HeaderSize + CountSize] == Uint32Bytes(|tris|);
    Uint32RoundTrip(|tris|);
    assert Uint32At(file, HeaderSize) == Uint32At(Uint32Bytes(|tris|), 0);
    forall i | 0 <= i < |tris|
      ensures RecordTriangle(file, i, decode) == tris[i]
    {
      RecordSlice(file, prefix, records, tris, normal, attribute, encode, i);
      RecordRead(file, tris[i], normal, attribute, encode, decode, i);
    }
  }

  lemma RecordRead(file: seq<Byte>, t: Triangle, normal: seq<Byte>, attribute: seq<Byte>,
                   encode: Vec3 -> seq<Byte>, decode: seq<Byte> -> Vec3, i: nat)
    requires |normal| == VertexSize && |attribute| == AttributeSize && IsVertexCodec(encode, decode)
    requires RecordStart(i) + RecordSize <= |file|
    requires file[RecordStart(i)..RecordStart(i) + RecordSize] == EncodeRecord(t, normal, attribute, encode)
    ensures RecordTriangle(file, i, decode) == t
  {
    var start := RecordStart(i);
    CornerRead(file, start, start + 12, t, normal, attribute, encode, decode, 0);
    CornerRead(file, start, start + 24, t, normal, attribute, encode, decode, 1);
    CornerRead(file, start, start + 36, t, normal, attribute, encode, decode, 2);
  }

  /** Record `i` of a written file is the encoding of triangle `i`. */
  lemma RecordSlice(file: seq<Byte>, prefix: seq<Byte>, records: seq<Byte>, tris: seq<Triangle>,
                    normal: seq<Byte>, attribute: seq<Byte>, encode: Vec3 -> seq<Byte>, i: nat)
    requires |normal| == VertexSize && |attribute| == AttributeSize && WritesVertex(encode)
    requires records == EncodeRecords(tris, normal, attribute, encode)
    requires |prefix| == HeaderSize + CountSize && file == prefix + records && i < |tris|
    ensures RecordStart(i) + RecordSize <= |file|
    ensures file[RecordStart(i)..RecordStart(i) + RecordSize] == EncodeRecord(tris[i], normal, attribute, encode)
  {
    RecordsLayout(tris, normal, attribute, encode, i);
    var lo: nat := RecordSize * i;
    SliceOfConcat(prefix, records, lo, lo + RecordSize);
  }

  /** Corner `j` of a written record reads back as corner `j` of its triangle. */
  lemma CornerRead(file: seq<Byte>, start: nat, at: nat, t: Triangle, normal: seq<Byte>, attribute: seq<Byte>,
                   encode: Vec3 -> seq<Byte>, decode: seq<Byte> -> Vec3, j: nat)
    requires |normal| == VertexSize && |attribute| == AttributeSize && IsVertexCodec(encode, decode) && j < 3
    requires start + RecordSize <= |file| && file[start..start + RecordSize] == EncodeRecord(t, normal, attribute, encode)
    requires at == start + 12 * (j + 1)
    ensures at + VertexSize <= |file| && VertexAt(file, at, decode) == t.At(j)
  {
    RecordLayout(t, normal, attribute, encode, j);
    SliceOfSlice(file, start, start + RecordSize, 12 * (j + 1), 12 * (j + 2));
  }

  // ASCII files

  /** The characters `std::isspace` accepts in the "C" locale. */
  predicate IsSpace(c: char) {
    c == ' ' || 9 <= c as int <= 13
  }

  /** What `ifs >> token` can return: a non-empty run without spaces. */
  predicate IsWord(w: string) {
    |w| > 0 && forall i :: 0 <= i < |w| ==> !IsSpace(w[i])
  }

  /** The length of the word `text` starts with. */
  function WordLength(text: string): (n: nat)
    requires text != [] && !IsSpace(text[0])
    ensures 0 < n <= |text| && IsWord(text[..n]) && (n == |text| || IsSpace(text[n]))
    decreases |text|
  {
    if |text| == 1 || IsSpace(text[1]) then 1 else 1 + WordLength(text[1..])
  }

  /** The words successive `ifs >> token` extractions return. */
  function Tokens(text: string): (ts: seq<string>)
    ensures forall i :: 0 <= i < |ts| ==> IsWord(ts[i])
    decreases |text|
  {
    if text == [] then []
    else if IsSpace(text[0]) then Tokens(text[1..])
    else
      var n := WordLength(text);
      [text[..n]] + Tokens(text[n..])
  }

  /** Words each followed by one space. */
  function Join(words: seq<string>): string {
    if words == [] then [] else words[0] + [' '] + Join(words[1..])
  }

  /** Splitting joined words gives back the words. */
  lemma {:induction false} TokensOfJoin(words: seq<string>)
    requires forall i :: 0 <= i < |words| ==> IsWord(words[i])
    ensures Tokens(Join(words)) == words
    decreases |words|
  {
    if words != [] {
      var w, rest := words[0], Join(words[1..]);
      var text := w + [' '] + rest;
      WordOfJoin(w, rest);
      assert text[|w|..] == [' '] + rest;
      assert text[|w|..][1..] == rest;
      TokensOfJoin(words[1..]);
    }
  }

  /** A word, a white-space character and any text: the word, then the
      tokens of the text. */
  lemma TokensAfterWord(w: string, c: char, tail: string)
    requires IsWord(w) && IsSpace(c)
    ensures Tokens(w + [c] + tail) == [w] + Tokens(tail)
  {
    var text := w + [c] + tail;
    WordBeforeSpace(w, c, tail);
    assert text[|w|..] == [c] + tail;
    assert ([c] + tail)[1..] == tail;
  }

  lemma {:induction false} WordBeforeSpace(w: string, c: char, rest: string)
    requires IsWord(w) && IsSpace(c)
    ensures WordLength(w + [c] + rest) == |w| && (w + [c] + rest)[..|w|] == w
    decreases |w|
  {
    var text := w + [c] + rest;
    if |w| > 1 {
      WordBeforeSpace(w[1..], c, rest);
      assert text[1..] == w[1..] + [c] + rest;
    }
  }

  /** A text that is one word is one token. */
  lemma {:induction false} TokensOfWord(w: string)
    requires IsWord(w)
    ensures Tokens(w) == [w]
  {
    WholeWord(w);
    assert w[..|w|] == w && w[|w|..] == [];
  }

  lemma {:induction false} WholeWord(w: string)
    requires IsWord(w)
    ensures WordLength(w) == |w|
    decreases |w|
  {
    if |w| > 1 {
      assert forall i :: 0 <= i < |w| - 1 ==> w[1..][i] == w[i + 1];
      WholeWord(w[1..]);
    }
  }

  lemma {:induction false} WordOfJoin(w: string, rest: string)
    requires IsWord(w)
    ensures WordLength(w + [' '] + rest) == |w| && (w + [' '] + rest)[..|w|] == w
    decreases |w|
  {
    var text := w + [' '] + rest;
    if |w| > 1 {
      WordOfJoin(w[1..], rest);
      assert text[1..] == w[1..] + [' '] + rest;
    }
  }

  /** The text of a file read in ASCII mode, one character per byte. */
  function Text(file: seq<Byte>): (text: string)
    ensures |text| == |file|
  {
    seq(|file|, i requires 0 <= i < |file| => file[i] as char)
  }

  /** The bytes of a text of 8-bit characters: the file `Text` reads back as
      that text. */
  function Latin1(text: string): (file: seq<Byte>)
    requires forall i :: 0 <= i < |text| ==> text[i] as int < 256
    ensures |file| == |text| && Text(file) == text
  {
    seq(|text|, i requires 0 <= i < |text| => text[i] as int)
  }

  /** Words in a facet block: `facet normal nx ny nz outer loop`, three times
      `vertex x y z`, then `endloop endfacet`. */
  const FacetWords: nat := 21

  /** The number at word `q`; a number past the end of the text is not read,
      so the corner keeps the zero it was created with. */
  function Number(toks: seq<string>, q: nat, number: string -> real): real {
    if q < |toks| then number(toks[q]) else 0.0
  }

  /** The corner whose coordinates are words `q`, `q + 1` and `q + 2`. */
  function Corner(toks: seq<string>, q: nat, number: string -> real): Vec3 {
    Vec3(Number(toks, q, number), Number(toks, q + 1, number), Number(toks, q + 2, number))
  }

  /** The triangle of the facet block starting at word `p`: its normal and
      keywords are skipped unchecked. */
  function FacetTriangle(toks: seq<string>, p: nat, number: string -> real): Triangle {
    Triangle(Corner(toks, p + 8, number), Corner(toks, p + 12, number), Corner(toks, p + 16, number))
  }

  /** The corners the ASCII walk appends from word `p` on: three for a word
      `facet`, whose block it then skips, and none for any other word. */
  function AsciiFrom(toks: seq<string>, p: nat, number: string -> real): (vs: seq<Vec3>)
    ensures |vs| % 3 == 0
    decreases |toks| - p
  {
    if p >= |toks| then []
    else if toks[p] == "facet" then FacetTriangle(toks, p, number).Vertices() + AsciiFrom(toks, p + FacetWords, number)
    else AsciiFrom(toks, p + 1, number)
  }

  /** `read_stl_mesh_file_ascii` over the words of the text. */
  method ReadAscii(toks: seq<string>, number: string -> real) returns (vs: seq<Vec3>)
    ensures vs == AsciiFrom(toks, 0, number)
  {
    vs := [];
    var p := 0;
    while p < |toks|
      invariant vs + AsciiFrom(toks, p, number) == AsciiFrom(toks, 0, number)
      decreases |toks| - p
    {
      var token := toks[p];
      var start := p;
      p := p + 1;
      if token == "facet" {
        ghost var before := vs;
        ghost var corners := FacetTriangle(toks, start, number).Vertices();
        p := p + 6;
        var k := 0;
        while k < 3
          invariant 0 <= k <= 3 && p == start + 7 + 4 * k
          invariant vs == before + corners[..k]
        {
          p := p + 1;
          var vertex := Vec3(Number(toks, p, number), Number(toks, p + 1, number), Number(toks, p + 2, number));
          assert corners[..k + 1] == corners[..k] + [vertex];
          vs := vs + [vertex];
          p := p + 3;
          k := k + 1;
        }
        assert corners[..3] == corners;
        p := p + 2;
      }
    }
  }

  /** The words a writer emits for one facet. */
  function FacetText(t: Triangle, normal: Vec3, show: real -> string): seq<string> {
    ["facet", "normal", show(normal.x), show(normal.y), show(normal.z), "outer", "loop"]
    + ["vertex", show(t.a.x), show(t.a.y), show(t.a.z)]
    + ["vertex", show(t.b.x), show(t.b.y), show(t.b.z)]
    + ["vertex", show(t.c.x), show(t.c.y), show(t.c.z)]
    + ["endloop", "endfacet"]
  }

  function FacetsText(tris: seq<Triangle>, normal: Vec3, show: real -> string): seq<string> {
    if tris == [] then []
    else FacetsText(tris[..|tris| - 1], normal, show) + FacetText(tris[|tris| - 1], normal, show)
  }

  /** The words of an ASCII STL file named `name` holding `tris`. */
  function AsciiText(name: string, tris: seq<Triangle>, normal: Vec3, show: real -> string): seq<string> {
    ["solid", name] + FacetsText(tris, normal, show) + ["endsolid", name]
  }

  /** `number` reads back what `show` writes, as a single word. */
  ghost predicate IsNumberCodec(show: real -> string, number: string -> real) {
    forall r :: IsWord(show(r)) && number(show(r)) == r
  }

  /** The walk does not see the words before it starts. */
  lemma {:induction false} AsciiShift(a: seq<string>, b: seq<string>, p: nat, number: string -> real)
    ensures AsciiFrom(a + b, |a| + p, number) == AsciiFrom(b, p, number)
    decreases |b| - p
  {
    if p < |b| {
      assert (a + b)[|a| + p] == b[p];
      if b[p] == "facet" {
        forall q: nat ensures Number(a + b, |a| + q, number) == Number(b, q, number) {
          if q < |b| {
            assert (a + b)[|a| + q] == b[q];
          }
        }
        assert FacetTriangle(a + b, |a| + p, number) == FacetTriangle(b, p, number);
        AsciiShift(a, b, p + FacetWords, number);
      } else {
        AsciiShift(a, b, p + 1, number);
      }
    }
  }

  /** One written facet block gives back its triangle. */
  lemma AsciiFacet(t: Triangle, normal: Vec3, rest: seq<string>, show: real -> string, number: string -> real)
    requires IsNumberCodec(show, number)
    ensures AsciiFrom(FacetText(t, normal, show) + rest, 0, number)
            == t.Vertices() + AsciiFrom(rest, 0, number)
  {
    var block := FacetText(t, normal, show);
    var toks := block + rest;
    assert |block| == FacetWords;
    assert toks[0] == "facet";
    assert toks[8..11] == [show(t.a.x), show(t.a.y), show(t.a.z)];
    assert toks[12..15] == [show(t.b.x), show(t.b.y), show(t.b.z)];
    assert toks[16..19] == [show(t.c.x), show(t.c.y), show(t.c.z)];
    assert FacetTriangle(toks, 0, number) == t;
    AsciiShift(block, rest, 0, number);
  }

  lemma {:induction false} AsciiFacets(tris: seq<Triangle>, normal: Vec3, rest: seq<string>,
                                       show: real -> string, number: string -> real)
    requires IsNumberCodec(show, number)
    ensures AsciiFrom(FacetsText(tris, normal, show) + rest, 0, number)
            == Flatten(tris) + AsciiFrom(rest, 0, number)
    decreases |tris|
  {
    if tris == [] {
      assert FacetsText(tris, normal, show) + rest == rest;
    } else {
      var init, last := tris[..|tris| - 1], tris[|tris| - 1];
      var tail := FacetText(last, normal, show) + rest;
      assert FacetsText(tris, normal, show) + rest == FacetsText(init, normal, show) + tail;
      AsciiFacets(init, normal, tail, show, number);
      AsciiFacet(last, normal, rest, show, number);
    }
  }

  /** Reading a written ASCII file gives back its triangles: the header and
      footer words and every normal are skipped, and each facet block yields
      its own corners. */
  lemma AsciiRoundTrip(name: string, tris: seq<Triangle>, normal: Vec3, show: real -> string, number: string -> real)
    requires IsNumberCodec(show, number) && name != "facet"
    ensures AsciiFrom(AsciiText(name, tris, normal, show), 0, number) == Flatten(tris)
  {
    var head, body, foot := ["solid", name], FacetsText(tris, normal, show), ["endsolid", name];
    var toks := AsciiText(name, tris, normal, show);
    assert toks == head + (body + foot);
    assert toks[0] == "solid" && toks[1] == name;
    assert "solid" != "facet";
    assert AsciiFrom(toks, 0, number) == AsciiFrom(toks, 2, number);
    AsciiShift(head, body + foot, 0, number);
    AsciiFacets(tris, normal, foot, show, number);
    assert "endsolid" != "facet";
    assert foot[0] == "endsolid" && foot[1] == name;
    assert AsciiFrom(foot, 0, number) == AsciiFrom(foot, 2, number) == [];
    assert Flatten(tris) + [] == Flatten(tris);
  }

  // The dispatch

  /** What `read_stl_mesh_file` returns for the bytes of a file. */
  function StlVertices(file: seq<Byte>, decode: seq<Byte> -> Vec3, number: string -> real): (r: Option<seq<Vec3>>)
    ensures r.None? <==> |file| == 0
    ensures r.Some? ==> |r.value| % 3 == 0
  {
    match Classify(file)
    case Empty => None
    case Truncated => Some([])
    case Binary(n) => Some(Flatten(BinaryTriangles(file, n, decode)))
    case Ascii => Some(AsciiFrom(Tokens(Text(file)), 0, number))
  }

  /** `read_stl_mesh_file` on the bytes of an opened file. */
  method ReadStl(file: seq<Byte>, decode: seq<Byte> -> Vec3, number: string -> real) returns (r: Option<seq<Vec3>>)
    ensures r == StlVertices(file, decode, number)
  {
    match Classify(file)
    case Empty =>
      r := None;
    case Truncated =>
      r := Some([]);
    case Binary(n) =>
      var vs := ReadBinary(file, n, decode);
      r := Some(vs);
    case Ascii =>
      var vs := ReadAscii(Tokens(Text(file)), number);
      r := Some(vs);
  }

  /** The dispatch on a binary file. */
  lemma StlBinary(file: seq<Byte>, decode: seq<Byte> -> Vec3, number: string -> real)
    requires Classify(file).Binary?
    ensures StlVertices(file, decode, number) == Some(Flatten(BinaryTriangles(file, Classify(file).triangles, decode)))
  {
  }

  /** A written binary file reads back as the corners of its triangles. */
  lemma ReadWrittenBinary(header: seq<Byte>, tris: seq<Triangle>, normal: seq<Byte>, attribute: seq<Byte>,
                          encode: Vec3 -> seq<Byte>, decode: seq<Byte> -> Vec3, number: string -> real)
    requires |header| == HeaderSize && |normal| == VertexSize && |attribute| == AttributeSize
    requires |tris| < Uint32Limit && IsVertexCodec(encode, decode)
    ensures StlVertices(EncodeBinary(header, tris, normal, attribute, encode), decode, number) == Some(Flatten(tris))
  {
    var file := EncodeBinary(header, tris, normal, attribute, encode);
    BinaryRoundTrip(header, tris, normal, attribute, encode, decode);
    StlBinary(file, decode, number);
  }
}
