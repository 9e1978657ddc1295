/**
 The ramdisk image: the records that make_ramdisk.py writes, and how parse_headers and
 get_file_header of kernel/kernel/tar_fs/tar.c read them back.
 */
module Ramdisk {
  import opened ByteMemory
  import opened Collections

  const SIZEOF_HEADER: nat := 128
  const NAME_FIELD: nat := 100
  const RESERVED_FIELD: nat := 24
  const MAX_FILES: nat := 32
  const INT_LIMIT: nat := 0x8000_0000  // what does not fit in a signed 32-bit size

  /** A Unicode code point of a file name; surrogates stand there for bytes that are no UTF-8. */
  type CodePoint = c: int | 0 <= c < 0x11_0000

  /** A file to be packed: its name, and its bytes. */
  datatype File = File(name: seq<CodePoint>, data: seq<Byte>)

  // ---- the writer ----

  function Zeros(n: nat): (z: seq<Byte>)
    ensures |z| == n && forall i :: 0 <= i < n ==> z[i] == 0
  {
    seq(n, _ => 0)
  }

  /** A number below 2 to the 32nd as four bytes, the lowest first. */
  function LittleEndian(n: nat): (bytes: seq<Byte>)
    requires n < 0x1_0000_0000
    ensures |bytes| == 4
  {
    [n % 256, n / 256 % 256, n / 65536 % 256, n / 16777216]
  }

  /** The UTF-8 encoding of one code point (RFC 3629, section 3). */
  function EncodeOne(c: CodePoint): (bytes: seq<Byte>)
    ensures 1 <= |bytes| <= 4 && (|bytes| == 1 <==> c < 0x80)
  {
    if c < 0x80 then [c]
    else if c < 0x800 then [0xC0 + c / 64, 0x80 + c % 64]
    else if c < 0x1_0000 then [0xE0 + c / 4096, 0x80 + c / 64 % 64, 0x80 + c % 64]
    else [0xF0 + c / 262144, 0x80 + c / 4096 % 64, 0x80 + c / 64 % 64, 0x80 + c % 64]
  }

  function Encode(name: seq<CodePoint>): (bytes: seq<Byte>)
    ensures |bytes| >= |name|
  {
    if name == [] then [] else EncodeOne(name[0]) + Encode(name[1..])
  }

  predicate Ascii(name: seq<CodePoint>) {
    forall i :: 0 <= i < |name| ==> name[i] < 0x80
  }

  /** The filler behind a name: as many zero bytes as the name's characters fall short of 100. */
  function Padding(name: seq<CodePoint>): nat {
    if |name| < NAME_FIELD then NAME_FIELD - |name| else 0
  }

  /** The size field of a file's record. */
  function Size(f: File): nat {
    SIZEOF_HEADER + |f.data|
  }

  /** No code point is a surrogate; those have no encoding. */
  predicate Encodable(name: seq<CodePoint>) {
    forall i :: 0 <= i < |name| ==> !(0xD800 <= name[i] < 0xE000)
  }

  /** The writer does not fail on the file's size or name. */
  predicate Packs(f: File) {
    Size(f) < INT_LIMIT && Encodable(f.name)
  }

  function Record(f: File): seq<Byte>
    requires Packs(f)
  {
    LittleEndian(Size(f)) + Encode(f.name) + Zeros(Padding(f.name)) + Zeros(RESERVED_FIELD) + f.data
  }

  predicate Packable(files: seq<File>) {
    forall i :: 0 <= i < |files| ==> Packs(files[i])
  }

  function Records(files: seq<File>): seq<Byte>
    requires Packable(files)
  {
    if files == [] then [] else Record(files[0]) + Records(files[1..])
  }

  /** The image: a record for each file, and the null record. */
  function Image(files: seq<File>): seq<Byte>
    requires Packable(files)
  {
    Records(files) + LittleEndian(0)
  }

  lemma Regroup<T>(a: seq<T>, b: seq<T>, c: seq<T>)
    ensures a + (b + c) == a + b + c
  {
  }

  lemma {:induction false} RecordsAppend(files: seq<File>, f: File)
    requires Packable(files) && Packs(f)
    ensures Packable(files + [f]) && Records(files + [f]) == Records(files) + Record(f)
  {
    if files == [] {
      assert [f][1..] == [];
    } else {
      assert (files + [f])[0] == files[0] && (files + [f])[1..] == files[1..] + [f];
      RecordsAppend(files[1..], f);
      Regroup(Record(files[0]), Records(files[1..]), Record(f));
    }
  }

  /** The body of make_ramdisk.py's loop. */
  method WriteRecord(before: seq<Byte>, f: File) returns (ramdisk: seq<Byte>)
    requires Packs(f)
    ensures ramdisk == before + Record(f)
  {
    ramdisk := before + LittleEndian(SIZEOF_HEADER + |f.data|);
    ramdisk := ramdisk + Encode(f.name);
    ramdisk := ramdisk + Zeros(Padding(f.name));
    ramdisk := ramdisk + Zeros(RESERVED_FIELD);
    ramdisk := ramdisk + f.data;
  }

  /**
   make_ramdisk.py, for the files in the order in which they are met; a size that does not fit, or a name
   without an encoding, is an error.
   */
  method WriteImage(files: seq<File>) returns (image: Option<seq<Byte>>)
    ensures image == if Packable(files) then Some(Image(files)) else None
  {
    var ramdisk: seq<Byte> := [];
    for i := 0 to |files|
      invariant Packable(files[..i]) && ramdisk == Records(files[..i])
    {
      var f := files[i];
      if SIZEOF_HEADER + |f.data| >= INT_LIMIT {
        return None;
      }
      if !Encodable(f.name) {
        return None;
      }
      RecordsAppend(files[..i], f);
      assert files[..i] + [f] == files[..i + 1];
      ramdisk := WriteRecord(ramdisk, f);
    }
    assert files[..|files|] == files;
    ramdisk := ramdisk + LittleEndian(0);
    return Some(ramdisk);
  }

  lemma {:induction false} EncodeAscii(name: seq<CodePoint>)
    ensures |Encode(name)| == |name| <==> Ascii(name)
    ensures Ascii(name) ==> forall i :: 0 <= i < |name| ==> Encode(name)[i] == name[i]
  {
    if name != [] {
      EncodeAscii(name[1..]);
      assert Ascii(name) <==> name[0] < 0x80 && Ascii(name[1..]);
    }
  }

  /** The name is ASCII, and no longer than its field. */
  predicate Aligned(f: File) {
    Ascii(f.name) && |f.name| <= NAME_FIELD
  }

  predicate AllAligned(files: seq<File>) {
    forall i :: 0 <= i < |files| ==> Aligned(files[i])
  }

  /** A record is as long as its size field says exactly if that is so. */
  lemma RecordAligned(f: File)
    requires Packs(f)
    ensures |Record(f)| == Size(f) <==> Aligned(f)
  {
    EncodeAscii(f.name);
  }

  // ---- what the bytes say ----

  /** A byte that continues the encoding of a code point. */
  predicate Continues(b: Byte) {
    0x80 <= b < 0xC0
  }

  /**
   The code point at the front of some bytes, and how many bytes it takes; None if they start with none. Neither
   longer forms than needed nor surrogates are allowed (RFC 3629, section 3).
   */
  function DecodeOne(b: seq<Byte>): Option<(CodePoint, nat)> {
    if |b| >= 1 && b[0] < 0x80 then Some((b[0], 1))
    else if |b| >= 2 && 0xC2 <= b[0] < 0xE0 && Continues(b[1]) then
      var b0: int, b1: int := b[0], b[1];
      Some(((b0 - 0xC0) * 64 + (b1 - 0x80), 2))
    else if |b| >= 3 && 0xE0 <= b[0] < 0xF0 && Continues(b[1]) && Continues(b[2]) then
      var b0: int, b1: int, b2: int := b[0], b[1], b[2];
      var c := (b0 - 0xE0) * 4096 + (b1 - 0x80) * 64 + (b2 - 0x80);
      if c < 0x800 || 0xD800 <= c < 0xE000 then None else Some((c, 3))
    else if |b| >= 4 && 0xF0 <= b[0] < 0xF5 && Continues(b[1]) && Continues(b[2]) && Continues(b[3]) then
      var b0: int, b1: int, b2: int, b3: int := b[0], b[1], b[2], b[3];
      var c := (b0 - 0xF0) * 262144 + (b1 - 0x80) * 4096 + (b2 - 0x80) * 64 + (b3 - 0x80);
      if c < 0x1_0000 || 0x11_0000 <= c then None else Some((c, 4))
    else None
  }

  function Decode(b: seq<Byte>): Option<seq<CodePoint>>
    decreases |b|
  {
    if b == [] then Some([])
    else
      var first := DecodeOne(b);
      if first.None? || first.value.1 > |b| || first.value.1 == 0 then None
      else
        var rest := Decode(b[first.value.1..]);
        if rest.None? then None else Some([first.value.0] + rest.value)
  }

  lemma TwoBytes(c: CodePoint, b: seq<Byte>)
    requires 0x80 <= c < 0x800 && |b| >= 2 && b[0] == 0xC0 + c / 64 && b[1] == 0x80 + c % 64
    ensures DecodeOne(b) == Some((c, 2))
  {
  }

  lemma ThreeBytes(c: CodePoint, b: seq<Byte>)
    requires 0x800 <= c < 0x1_0000 && |b| >= 3
    requires b[0] == 0xE0 + c / 4096 && b[1] == 0x80 + c / 64 % 64 && b[2] == 0x80 + c % 64
    ensures DecodeOne(b) == if 0xD800 <= c < 0xE000 then None else Some((c, 3))
  {
    assert c == c / 4096 * 4096 + c / 64 % 64 * 64 + c % 64;
  }

  lemma FourByteForm(c: CodePoint, b: seq<Byte>)
    requires 0x1_0000 <= c && |b| >= 4
    requires b[0] == 0xF0 + c / 262144 && b[1] == 0x80 + c / 4096 % 64
    requires b[2] == 0x80 + c / 64 % 64 && b[3] == 0x80 + c % 64
    ensures DecodeOne(b) == Some((c, 4))
  {
    assert c == c / 64 * 64 + c % 64 && c / 64 == c / 4096 * 64 + c / 64 % 64;
    assert c / 4096 == c / 262144 * 64 + c / 4096 % 64;
  }

  lemma DecodeOneRoundTrip(c: CodePoint, rest: seq<Byte>)
    ensures DecodeOne(EncodeOne(c) + rest) == if 0xD800 <= c < 0xE000 then None else Some((c, |EncodeOne(c)|))
  {
    var b := EncodeOne(c) + rest;
    if 0x80 <= c < 0x800 {
      TwoBytes(c, b);
    } else if 0x800 <= c < 0x1_0000 {
      ThreeBytes(c, b);
    } else if 0x1_0000 <= c {
      FourByteForm(c, b);
    }
  }

  /** The bytes of a name give it back if and only if it has an encoding; if not, they are no UTF-8. */
  lemma {:induction false} NameRoundTrip(name: seq<CodePoint>)
    ensures Decode(Encode(name)) == if Encodable(name) then Some(name) else None
  {
    if name != [] {
      var e, rest := EncodeOne(name[0]), Encode(name[1..]);
      assert Encodable(name) <==> !(0xD800 <= name[0] < 0xE000) && Encodable(name[1..]);
      DecodeOneRoundTrip(name[0], rest);
      NameRoundTrip(name[1..]);
      DecodeFront(e, rest);
      assert name == [name[0]] + name[1..];
    }
  }

  lemma DecodeFront(e: seq<Byte>, rest: seq<Byte>)
    requires e != [] && (DecodeOne(e + rest).Some? ==> DecodeOne(e + rest).value.1 == |e|)
    ensures Decode(e + rest) ==
      if DecodeOne(e + rest).None? || Decode(rest).None? then None
      else Some([DecodeOne(e + rest).value.0] + Decode(rest).value)
  {
    assert (e + rest)[|e|..] == rest;
  }

  /** A file is taken if and only if its record's size fits in signed 32 bits and its name has an encoding. */
  lemma WhatPacks(f: File)
    ensures Packs(f) <==> 128 + |f.data| <= 0x7FFF_FFFF && Decode(Encode(f.name)) == Some(f.name)
  {
    NameRoundTrip(f.name);
  }

  /** Four bytes for the size, the name, zeros, and the data. */
  lemma RecordLayout(f: File)
    requires Packs(f)
    ensures var r, n := Record(f), |Encode(f.name)|;
      var zeros := 24 + if |f.name| < 100 then 100 - |f.name| else 0;
      && |r| == 4 + n + zeros + |f.data|
      && var s0: nat, s1: nat, s2: nat, s3: nat := r[0], r[1], r[2], r[3];
      && s0 + 256 * s1 + 65536 * s2 + 16777216 * s3 == 128 + |f.data|
      && r[4..4 + n] == Encode(f.name)
      && (forall i :: 4 + n <= i < 4 + n + zeros ==> r[i] == 0)
      && r[4 + n + zeros..] == f.data
  {
    FourBytes(Size(f));
  }

  // ---- the reader ----

  /** The size field at a position. */
  function SizeAt(m: seq<Byte>, at: nat): nat
    requires at + 4 <= |m|
  {
    var b0: nat, b1: nat, b2: nat, b3: nat := m[at], m[at + 1], m[at + 2], m[at + 3];
    b0 + 256 * b1 + 65536 * b2 + 16777216 * b3
  }

  lemma FourBytes(n: nat)
    requires n < 0x1_0000_0000
    ensures n == n % 256 + 256 * (n / 256 % 256) + 65536 * (n / 65536 % 256) + 16777216 * (n / 16777216)
  {
    assert n == n % 256 + 256 * (n / 256);
    assert n / 256 == n / 256 % 256 + 256 * (n / 65536);
    assert n / 65536 == n / 65536 % 256 + 256 * (n / 16777216);
  }

  lemma SizeRoundTrip(n: nat, m: seq<Byte>, at: nat)
    requires n < 0x1_0000_0000 && at + 4 <= |m| && m[at..at + 4] == LittleEndian(n)
    ensures SizeAt(m, at) == n
  {
    FourBytes(n);
    assert m[at..at + 4][0] == m[at] && m[at..at + 4][1] == m[at + 1];
    assert m[at..at + 4][2] == m[at + 2] && m[at..at + 4][3] == m[at + 3];
  }

  /** From position at on there are records, each at least a header long, up to a null record. */
  predicate WellFormed(m: seq<Byte>, at: nat)
    decreases |m| - at
  {
    && at + 4 <= |m|
    && var size := SizeAt(m, at);
      size == 0 || (SIZEOF_HEADER <= size && at + size <= |m| && WellFormed(m, at + size))
  }

  /** The records from position at on. */
  function Walk(m: seq<Byte>, at: nat): seq<seq<Byte>>
    requires WellFormed(m, at)
    decreases |m| - at
  {
    var size := SizeAt(m, at);
    if size == 0 then [] else [m[at..at + size]] + Walk(m, at + size)
  }

  /** The text from position at of a record up to the next null character. */
  function CString(record: seq<Byte>, at: nat): seq<Byte>
    requires at <= |record|
    decreases |record| - at
  {
    if at == |record| || record[at] == 0 then [] else [record[at]] + CString(record, at + 1)
  }

  lemma {:induction false} CStringIs(record: seq<Byte>, at: nat)
    requires at <= |record|
    ensures var text := CString(record, at); var stop := at + |text|;
      && stop <= |record| && text == record[at..stop] && (stop < |record| ==> record[stop] == 0)
      && forall i :: 0 <= i < |text| ==> text[i] != 0
    decreases |record| - at
  {
    if at < |record| && record[at] != 0 { CStringIs(record, at + 1); }
  }

  function Name(record: seq<Byte>): seq<Byte>
    requires |record| >= SIZEOF_HEADER
  {
    CString(record, 4)
  }

  function Data(record: seq<Byte>): seq<Byte>
    requires |record| >= SIZEOF_HEADER
  {
    record[SIZEOF_HEADER..]
  }

  // ---- the reader undoes the writer ----

  /** A file whose record comes out right: an ASCII name of at most 100 characters, none null, and data that fit. */
  predicate Sound(f: File) {
    && Aligned(f) && Size(f) < INT_LIMIT
    && forall i :: 0 <= i < |f.name| ==> f.name[i] != 0
  }

  predicate AllSound(files: seq<File>) {
    forall i :: 0 <= i < |files| ==> Sound(files[i])
  }

  lemma {:induction false} CStringReads(record: seq<Byte>, at: nat, text: seq<Byte>)
    requires at + |text| < |record| && record[at..at + |text|] == text && record[at + |text|] == 0
    requires forall i :: 0 <= i < |text| ==> text[i] != 0
    ensures CString(record, at) == text
    decreases |text|
  {
    if text != [] {
      assert record[at] == record[at..at + |text|][0];
      assert record[at + 1..at + 1 + |text[1..]|] == record[at..at + |text|][1..];
      CStringReads(record, at + 1, text[1..]);
    }
  }

  /** A record gives back its file's name and data. */
  lemma RecordReads(f: File)
    requires Sound(f)
    ensures |Record(f)| == Size(f) && Name(Record(f)) == f.name && Data(Record(f)) == f.data
    ensures Record(f)[4 + |f.name|] == 0
  {
    RecordAligned(f);
    EncodeAscii(f.name);
    var r := Record(f);
    assert Encode(f.name) == f.name;
    assert r[4..4 + |f.name|] == f.name;
    CStringReads(r, 4, f.name);
    assert r[SIZEOF_HEADER..] == f.data;
  }

  lemma AtFront(m: seq<Byte>, at: nat, front: seq<Byte>, rest: seq<Byte>)
    requires at <= |m| && m[at..] == front + rest
    ensures at + |front| <= |m| && m[at..at + |front|] == front && m[at + |front|..] == rest
  {
    assert m[at..at + |front|] == m[at..][..|front|];
    assert m[at + |front|..] == m[at..][|front|..];
  }

  lemma SizeAtFront(m: seq<Byte>, at: nat, n: nat, rest: seq<Byte>)
    requires n < 0x1_0000_0000 && at <= |m| && m[at..] == LittleEndian(n) + rest
    ensures at + 4 <= |m| && SizeAt(m, at) == n
  {
    AtFront(m, at, LittleEndian(n), rest);
    SizeRoundTrip(n, m, at);
  }

  function RecordList(files: seq<File>): (rs: seq<seq<Byte>>)
    requires Packable(files)
    ensures |rs| == |files| && forall i :: 0 <= i < |rs| ==> rs[i] == Record(files[i])
  {
    seq(|files|, i requires 0 <= i < |files| => Record(files[i]))
  }

  lemma RecordAtFront(m: seq<Byte>, at: nat, f: File, rest: seq<Byte>)
    requires Packs(f) && at <= |m| && m[at..] == Record(f) + rest
    ensures at + |Record(f)| <= |m| && m[at..at + |Record(f)|] == Record(f) && m[at + |Record(f)|..] == rest
    ensures SizeAt(m, at) == Size(f)
  {
    AtFront(m, at, Record(f), rest);
    var body := Encode(f.name) + Zeros(Padding(f.name)) + Zeros(RESERVED_FIELD) + f.data;
    assert Record(f) + rest == LittleEndian(Size(f)) + (body + rest);
    SizeAtFront(m, at, Size(f), body + rest);
  }

  /** From position at on there are the records of the given files, and the null record. */
  predicate ReadsAs(m: seq<Byte>, at: nat, files: seq<File>)
    requires Packable(files)
  {
    WellFormed(m, at) && Walk(m, at) == RecordList(files)
  }

  lemma WalkEmpty(m: seq<Byte>, at: nat)
    requires at <= |m| && m[at..] == Image([])
    ensures ReadsAs(m, at, [])
  {
    SizeAtFront(m, at, 0, []);
  }

  /** The first record of what is still to come. */
  lemma FirstRecord(m: seq<Byte>, at: nat, files: seq<File>)
    requires files != [] && Packable(files) && at <= |m| && m[at..] == Image(files)
    ensures Packable(files[1..]) && at + 4 <= |m| && SizeAt(m, at) == Size(files[0])
    ensures var next := at + |Record(files[0])|;
      next <= |m| && m[at..next] == Record(files[0]) && m[next..] == Image(files[1..])
  {
    assert Image(files) == Record(files[0]) + Image(files[1..]);
    RecordAtFront(m, at, files[0], Image(files[1..]));
  }

  /** A record is read as what it is, and so is the rest, if and only if its size field tells the truth. */
  lemma WalkOne(m: seq<Byte>, at: nat, r: seq<Byte>, rest: seq<seq<Byte>>)
    requires at + 4 <= |m| && SIZEOF_HEADER <= SizeAt(m, at) && at + |r| <= |m| && m[at..at + |r|] == r
    ensures WellFormed(m, at) && Walk(m, at) == [r] + rest <==>
      |r| == SizeAt(m, at) && WellFormed(m, at + |r|) && Walk(m, at + |r|) == rest
  {
    if WellFormed(m, at) {
      var next := at + SizeAt(m, at);
      assert Walk(m, at)[0] == m[at..next] && Walk(m, at)[1..] == Walk(m, next);
      assert ([r] + rest)[0] == r && ([r] + rest)[1..] == rest;
    }
  }

  lemma OneMoreRecord(m: seq<Byte>, at: nat, files: seq<File>, r: seq<Byte>)
    requires files != [] && Packable(files) && Packable(files[1..]) && RecordList(files) == [r] + RecordList(files[1..])
    requires at + 4 <= |m| && SizeAt(m, at) == Size(files[0]) && at + |r| <= |m| && m[at..at + |r|] == r
    ensures ReadsAs(m, at, files) <==> |r| == Size(files[0]) && ReadsAs(m, at + |r|, files[1..])
  {
    WalkOne(m, at, r, RecordList(files[1..]));
  }

  lemma RecordListTail(files: seq<File>)
    requires files != [] && Packable(files)
    ensures Packable(files[1..]) && RecordList(files) == [Record(files[0])] + RecordList(files[1..])
  {
  }

  /**
   The image, from where the given files are still to come, is read as their records if and only if all of them
   have ASCII names that fit their field.
   */
  lemma {:induction false} WalkReads(m: seq<Byte>, at: nat, files: seq<File>)
    requires Packable(files) && at <= |m| && m[at..] == Image(files)
    ensures ReadsAs(m, at, files) <==> AllAligned(files)
    decreases |files|
  {
    if files == [] {
      WalkEmpty(m, at);
    } else {
      var r := Record(files[0]);
      FirstRecord(m, at, files);
      RecordAligned(files[0]);
      RecordListTail(files);
      OneMoreRecord(m, at, files, r);
      WalkReads(m, at + |r|, files[1..]);
      assert AllAligned(files) <==> Aligned(files[0]) && AllAligned(files[1..]);
    }
  }

  // ---- the reader on any bytes ----

  /** The size field at a position is there, and it is zero, or the record is a header long and lies in the image. */
  predicate Legible(m: seq<Byte>, at: nat) {
    && at + 4 <= |m|
    && var size := SizeAt(m, at);
      size == 0 || (SIZEOF_HEADER <= size && at + size <= |m|)
  }

  /** The first n records from position at on, and whether the reader comes to one that is not legible. */
  function Read(m: seq<Byte>, at: nat, n: nat): (r: (seq<seq<Byte>>, bool))
    ensures |r.0| <= n && forall i :: 0 <= i < |r.0| ==> |r.0[i]| >= SIZEOF_HEADER
    decreases |m| - at
  {
    if !Legible(m, at) then ([], true)
    else
      var size := SizeAt(m, at);
      if size == 0 || n == 0 then ([], false)
      else
        var (rs, strayed) := Read(m, at + size, n - 1);
        ([m[at..at + size]] + rs, strayed)
  }

  function FirstOf<T>(s: seq<T>, n: nat): seq<T> {
    if n < |s| then s[..n] else s
  }

  /** Of the first n records the reader has seen some, and comes next to position at, with left of them to go. */
  ghost predicate ReadSoFar(m: seq<Byte>, n: nat, seen: seq<seq<Byte>>, at: nat, left: nat) {
    var (all, rest) := (Read(m, 0, n), Read(m, at, left));
    all.0 == seen + rest.0 && all.1 == rest.1
  }

  lemma ReadOneMore(m: seq<Byte>, n: nat, seen: seq<seq<Byte>>, at: nat, left: nat)
    requires ReadSoFar(m, n, seen, at, left) && Legible(m, at) && SizeAt(m, at) != 0 && left > 0
    ensures var next := at + SizeAt(m, at); ReadSoFar(m, n, seen + [m[at..next]], next, left - 1)
  {
    var next := at + SizeAt(m, at);
    Regroup(seen, [m[at..next]], Read(m, next, left - 1).0);
  }

  /** In a well-formed image that never happens. */
  lemma {:induction false} ReadWellFormed(m: seq<Byte>, at: nat, n: nat)
    requires WellFormed(m, at)
    ensures Read(m, at, n) == (FirstOf(Walk(m, at), n), false)
    decreases |m| - at
  {
    var size := SizeAt(m, at);
    if size != 0 && n > 0 {
      ReadWellFormed(m, at + size, n - 1);
      var all, rest := Walk(m, at), Walk(m, at + size);
      assert FirstOf(all, n) == [m[at..at + size]] + FirstOf(rest, n - 1);
    }
  }

  /** Where the reader stops, it has seen all of it. */
  lemma ReadAll(m: seq<Byte>, n: nat, seen: seq<seq<Byte>>, at: nat, left: nat)
    requires ReadSoFar(m, n, seen, at, left) && (!Legible(m, at) || SizeAt(m, at) == 0 || left == 0)
    ensures Read(m, 0, n) == (seen, !Legible(m, at))
    ensures WellFormed(m, 0) ==> Legible(m, at) && seen == FirstOf(Walk(m, 0), n)
  {
    assert seen + [] == seen;
    if WellFormed(m, 0) { ReadWellFormed(m, 0, n); }
  }

  /** The records start at the given positions, each where the size field of the one before says. */
  ghost predicate Chained(m: seq<Byte>, starts: seq<nat>, records: seq<seq<Byte>>) {
    && |starts| == |records| + 1
    && forall k {:trigger records[k]} :: 0 <= k < |records| ==> RecordAt(m, starts[k], starts[k + 1], records[k])
  }

  ghost predicate RecordAt(m: seq<Byte>, at: nat, next: nat, record: seq<Byte>) {
    && at + 128 <= next <= |m| && record == m[at..next]
    && var s0: nat, s1: nat, s2: nat, s3: nat := m[at], m[at + 1], m[at + 2], m[at + 3];
      next == at + s0 + 256 * s1 + 65536 * s2 + 16777216 * s3
  }

  /** The reader stops at a null record, or once it has n records; or it strays, where there is no record at all. */
  ghost predicate StopsAt(m: seq<Byte>, at: nat, full: bool, strayed: bool) {
    if at + 4 > |m| then strayed
    else
      var s0: nat, s1: nat, s2: nat, s3: nat := m[at], m[at + 1], m[at + 2], m[at + 3];
      var size := s0 + 256 * s1 + 65536 * s2 + 16777216 * s3;
      if 0 < size < 128 || at + size > |m| then strayed else !strayed && (size == 0 || full)
  }

  /** What the reader sees, byte by byte. */
  lemma {:induction false} ReadChain(m: seq<Byte>, at: nat, n: nat) returns (starts: seq<nat>)
    ensures var (records, strayed) := Read(m, at, n);
      && Chained(m, starts, records) && starts[0] == at
      && StopsAt(m, starts[|records|], |records| == n, strayed)
    decreases |m| - at
  {
    starts := [at];
    if Legible(m, at) && SizeAt(m, at) != 0 && n > 0 {
      var next := at + SizeAt(m, at);
      var rest := ReadChain(m, next, n - 1);
      starts := [at] + rest;
      var records, tail := Read(m, at, n).0, Read(m, next, n - 1).0;
      assert records == [m[at..next]] + tail;
      forall k | 0 <= k < |records| ensures RecordAt(m, starts[k], starts[k + 1], records[k]) {
        if k > 0 { assert records[k] == tail[k - 1] && starts[k] == rest[k - 1] && starts[k + 1] == rest[k]; }
      }
    }
  }

  /** Two empty files, of which the first has a name of one letter that is not ASCII. */
  function Accented(): seq<File> {
    [File([0xE9], []), File([0x61], [])]
  }

  lemma AccentedRecord()
    ensures Packable(Accented())
    ensures Record(Accented()[0]) == [128, 0, 0, 0, 0xC3, 0xA9] + Zeros(123)
    ensures Record(Accented()[1]) == [128, 0, 0, 0, 0x61] + Zeros(123)
  {
    assert Encode([0xE9]) == [0xC3, 0xA9] && Encode([0x61]) == [0x61];
    assert Zeros(99) + Zeros(24) == Zeros(123);
  }

  lemma AccentedSizes()
    ensures Packable(Accented())
    ensures var m := Image(Accented());
      |m| == 2 * SIZEOF_HEADER + 5 && SizeAt(m, 0) == SIZEOF_HEADER && SizeAt(m, SIZEOF_HEADER) == 32768
  {
    AccentedRecord();
    var a := Accented();
    assert a[1..] == [a[1]] && a[1..][1..] == [];
    assert Image(a) == Record(a[0]) + Record(a[1]) + LittleEndian(0);
  }

  /** The size field of the second record is read one byte too early, and leads the reader out of the image. */
  lemma AccentedStrays()
    ensures Packable(Accented()) && !WellFormed(Image(Accented()), 0)
    ensures Read(Image(Accented()), 0, 32) == ([Image(Accented())[..128]], true)
  {
    AccentedSizes();
    var m := Image(Accented());
    assert Read(m, SIZEOF_HEADER, MAX_FILES - 1) == ([], true);
    assert [m[0..SIZEOF_HEADER]] + [] == [m[..SIZEOF_HEADER]];
  }
}
