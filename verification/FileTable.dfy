/** The table of ramdisk files that kernel/kernel/tar_fs/tar.c builds, and the lookup in it. */
module FileTable {
  import opened ByteMemory
  import opened Collections
  import opened Ramdisk

  // ---- kstrcmp ----

  /** A byte read as a signed character. */
  function Signed(b: Byte): int {
    if b < 128 then b else b - 256
  }

  function Sign(x: int): int {
    if x < 0 then -1 else if x > 0 then 1 else 0
  }

  /** The order of two strings, each with a null character behind its last one. */
  function Compare(a: seq<Byte>, b: seq<Byte>): int {
    if a != [] && b != [] && a[0] == b[0] then Compare(a[1..], b[1..])
    else Sign((if a == [] then 0 else Signed(a[0])) - (if b == [] then 0 else Signed(b[0])))
  }

  predicate NoNull(s: seq<Byte>) {
    forall i :: 0 <= i < |s| ==> s[i] != 0
  }

  lemma {:induction false} CompareEqual(a: seq<Byte>, b: seq<Byte>)
    requires NoNull(a) && NoNull(b)
    ensures Compare(a, b) == 0 <==> a == b
  {
    if a != [] && b != [] && a[0] == b[0] {
      CompareEqual(a[1..], b[1..]);
      assert a == [a[0]] + a[1..] && b == [b[0]] + b[1..];
    }
  }

  /** The character at a position of a string, read as signed; a null character stands behind the last. */
  function CharAt(s: seq<Byte>, i: nat): int {
    var c: int := if i < |s| then s[i] else 0;
    if c < 128 then c else c - 256
  }

  /** Up to position k the strings are the same, and there they differ. */
  predicate DifferAt(a: seq<Byte>, b: seq<Byte>, k: nat) {
    k <= |a| && k <= |b| && a[..k] == b[..k] && CharAt(a, k) != CharAt(b, k)
  }

  /** Where the strings first differ, the lesser one has the lesser character, read as signed. */
  lemma {:induction false} CompareDiffers(a: seq<Byte>, b: seq<Byte>, k: nat)
    requires NoNull(a) && NoNull(b) && DifferAt(a, b, k)
    ensures Compare(a, b) == if CharAt(a, k) < CharAt(b, k) then -1 else 1
    decreases k
  {
    if k > 0 {
      assert a[0] == a[..k][0] == b[..k][0] == b[0];
      assert a[1..][..k - 1] == a[..k][1..] && b[1..][..k - 1] == b[..k][1..];
      CompareDiffers(a[1..], b[1..], k - 1);
    }
  }

  /** Different strings differ somewhere. */
  lemma {:induction false} FirstDifference(a: seq<Byte>, b: seq<Byte>) returns (k: nat)
    requires NoNull(a) && NoNull(b) && a != b
    ensures DifferAt(a, b, k)
  {
    k := 0;
    if a != [] && b != [] && a[0] == b[0] {
      assert a == [a[0]] + a[1..] && b == [b[0]] + b[1..];
      var j := FirstDifference(a[1..], b[1..]);
      k := j + 1;
      assert a[..k] == [a[0]] + a[1..][..j] && b[..k] == [b[0]] + b[1..][..j];
    }
  }

  /** So the result is negative exactly if the first byte that differs, read as signed, is the lesser. */
  lemma CompareNegative(a: seq<Byte>, b: seq<Byte>)
    requires NoNull(a) && NoNull(b)
    ensures Compare(a, b) < 0 <==> exists k: nat :: DifferAt(a, b, k) && CharAt(a, k) < CharAt(b, k)
    ensures Compare(a, b) > 0 <==> exists k: nat :: DifferAt(a, b, k) && CharAt(a, k) > CharAt(b, k)
  {
    CompareEqual(a, b);
    if a != b {
      var k := FirstDifference(a, b);
      CompareDiffers(a, b, k);
      forall j: nat | DifferAt(a, b, j) ensures Compare(a, b) == if CharAt(a, j) < CharAt(b, j) then -1 else 1 {
        CompareDiffers(a, b, j);
      }
    }
  }

  /** There is a null character at or behind a position. */
  predicate Terminated(s: seq<Byte>, at: nat) {
    exists i :: at <= i < |s| && s[i] == 0
  }

  /** kstrcmp, on two null-terminated strings. */
  method KStrCmp(lhs: seq<Byte>, at: nat, rhs: seq<Byte>, from: nat) returns (r: int)
    requires Terminated(lhs, at) && Terminated(rhs, from)
    ensures r == Compare(CString(lhs, at), CString(rhs, from))
  {
    var i := 0;
    while lhs[at + i] != 0 && rhs[from + i] != 0 && lhs[at + i] == rhs[from + i]
      invariant Terminated(lhs, at + i) && Terminated(rhs, from + i)
      invariant Compare(CString(lhs, at), CString(rhs, from)) == Compare(CString(lhs, at + i), CString(rhs, from + i))
      decreases |lhs| - i
    {
      assert CString(lhs, at + i)[1..] == CString(lhs, at + i + 1);
      assert CString(rhs, from + i)[1..] == CString(rhs, from + i + 1);
      i := i + 1;
    }
    if Signed(lhs[at + i]) < Signed(rhs[from + i]) {
      return -1;
    } else if Signed(lhs[at + i]) > Signed(rhs[from + i]) {
      return 1;
    }
    return 0;
  }

  // ---- the table ----

  /** The first header with the given name. */
  function Lookup(headers: seq<seq<Byte>>, name: seq<Byte>): (r: Option<seq<Byte>>)
    requires forall i :: 0 <= i < |headers| ==> |headers[i]| >= SIZEOF_HEADER
    ensures match r
      case Some(h) => exists i :: 0 <= i < |headers| && headers[i] == h && Name(h) == name &&
                                  forall k :: 0 <= k < i ==> Name(headers[k]) != name
      case None => forall k :: 0 <= k < |headers| ==> Name(headers[k]) != name
  {
    if headers == [] then None
    else if Name(headers[0]) == name then Some(headers[0])
    else Lookup(headers[1..], name)
  }

  class FileTable {
    const headers: array<seq<Byte>>
    var count: nat

    ghost predicate Valid()
      reads this, headers
    {
      && headers.Length == MAX_FILES && count <= MAX_FILES
      && forall i :: 0 <= i < count ==> |headers[i]| >= SIZEOF_HEADER
    }

    ghost function Contents(): seq<seq<Byte>>
      reads this, headers
      requires Valid()
    {
      headers[..count]
    }

    constructor ()
      ensures Valid() && Contents() == [] && fresh(headers)
    {
      headers := new seq<Byte>[MAX_FILES](_ => []);
      count := 0;
    }

    /**
     parse_headers, on an image that starts at the front of m. Past the first record that is not legible, which
     strayed reports, the reader follows a wrong size field.
     */
    method ParseHeaders(m: seq<Byte>) returns (strayed: bool)
      requires Valid()
      modifies this, headers
      ensures Valid() && Contents() == old(Contents()) + Read(m, 0, 32 - old(count)).0
      ensures strayed == Read(m, 0, 32 - old(count)).1
      ensures WellFormed(m, 0) ==> !strayed && Contents() == old(Contents()) + FirstOf(Walk(m, 0), 32 - old(count))
    {
      ghost var n := MAX_FILES - count;
      var at, seen := ReadRecords(m);
      strayed := !Legible(m, at);
      ReadAll(m, n, seen, at, MAX_FILES - count);
    }

    /** Its loop, which stops at a null record, at one that is not legible, or when the table is full. */
    method ReadRecords(m: seq<Byte>) returns (at: nat, ghost seen: seq<seq<Byte>>)
      requires Valid()
      modifies this, headers
      ensures Seen(old(Contents()), seen) && ReadSoFar(m, MAX_FILES - old(count), seen, at, MAX_FILES - count)
      ensures !Legible(m, at) || SizeAt(m, at) == 0 || count == MAX_FILES
    {
      ghost var before, n := Contents(), MAX_FILES - count;
      at, seen := 0, [];
      while Legible(m, at) && SizeAt(m, at) != 0
        invariant at <= |m| && Seen(before, seen) && ReadSoFar(m, n, seen, at, MAX_FILES - count)
        decreases |m| - at
      {
        if count >= MAX_FILES {
          break;
        }
        at, seen := KeepRecord(m, at, n, before, seen);
      }
    }

    /** The table holds what it held before and the headers that have been seen. */
    ghost predicate Seen(before: seq<seq<Byte>>, seen: seq<seq<Byte>>)
      reads this, headers
    {
      Valid() && Contents() == before + seen
    }

    /** The body of that loop. */
    method KeepRecord(m: seq<Byte>, at: nat, ghost n: nat, ghost before: seq<seq<Byte>>, ghost seen: seq<seq<Byte>>)
      returns (next: nat, ghost seen': seq<seq<Byte>>)
      requires Seen(before, seen) && count < MAX_FILES
      requires Legible(m, at) && SizeAt(m, at) != 0 && ReadSoFar(m, n, seen, at, MAX_FILES - count)
      modifies this, headers
      ensures Seen(before, seen') && at < next <= |m| && ReadSoFar(m, n, seen', next, MAX_FILES - count)
    {
      var size := SizeAt(m, at);
      next, seen' := at + size, seen + [m[at..at + size]];
      ReadOneMore(m, n, seen, at, MAX_FILES - count);
      Regroup(before, seen, [m[at..at + size]]);
      Keep(m[at..at + size]);
    }

    /** A copy of a file's header and data gets the next place in the table. */
    method Keep(header: seq<Byte>)
      requires Valid() && count < MAX_FILES && |header| >= SIZEOF_HEADER
      modifies this, headers
      ensures Valid() && Contents() == old(Contents()) + [header] && count == old(count) + 1
    {
      headers[count] := header;
      count := count + 1;
    }

    /** get_file_header. */
    method GetFileHeader(filename: seq<Byte>) returns (r: Option<seq<Byte>>)
      requires Valid() && Terminated(filename, 0)
      requires forall i :: 0 <= i < count ==> Terminated(headers[i], 4)
      ensures r == Lookup(Contents(), CString(filename, 0))
    {
      ghost var all := Contents();
      for i := 0 to count
        invariant Lookup(all, CString(filename, 0)) == Lookup(all[i..], CString(filename, 0))
      {
        var order := KStrCmp(filename, 0, headers[i], 4);
        CStringIs(filename, 0);
        CStringIs(headers[i], 4);
        CompareEqual(CString(filename, 0), CString(headers[i], 4));
        assert all[i..][0] == headers[i] && all[i..][1..] == all[i + 1..];
        if order == 0 {
          return Some(headers[i]);
        }
      }
      return None;
    }
  }

  // ---- the image of a list of files, read into an empty table ----

  /** The table holds the first 32 files, in order, with their names and data. */
  lemma ImageRoundTrip(files: seq<File>)
    requires AllSound(files)
    ensures Packable(files) && WellFormed(Image(files), 0)
    ensures var table := FirstOf(Walk(Image(files), 0), 32); var first := FirstOf(files, 32);
      && |table| == |first|
      && forall i :: 0 <= i < |first| ==>
        && |table[i]| >= SIZEOF_HEADER && Terminated(table[i], 4)
        && Name(table[i]) == first[i].name && Data(table[i]) == first[i].data
  {
    var m := Image(files);
    assert m[0..] == m;
    assert Packable(files) && AllAligned(files);
    WalkReads(m, 0, files);
    forall i | 0 <= i < |files|
      ensures var r := Record(files[i]);
        && |r| >= SIZEOF_HEADER && Terminated(r, 4) && Name(r) == files[i].name && Data(r) == files[i].data
    {
      RecordReads(files[i]);
    }
  }

  /** The first file of the given name. */
  function FirstNamed(files: seq<File>, name: seq<Byte>): Option<File> {
    if files == [] then None
    else if files[0].name == name then Some(files[0])
    else FirstNamed(files[1..], name)
  }

  /** Looking up a name gives the first of the files in the table that has it, and nothing if none has. */
  lemma {:induction false} LookupFinds(table: seq<seq<Byte>>, files: seq<File>, name: seq<Byte>)
    requires |table| == |files|
    requires forall i :: 0 <= i < |files| ==>
      |table[i]| >= SIZEOF_HEADER && Name(table[i]) == files[i].name && Data(table[i]) == files[i].data
    ensures match Lookup(table, name)
      case None => FirstNamed(files, name) == None
      case Some(h) => FirstNamed(files, name).Some? && |h| >= SIZEOF_HEADER &&
                      FirstNamed(files, name).value.data == Data(h) && FirstNamed(files, name).value.name == name
  {
    if files != [] {
      LookupFinds(table[1..], files[1..], name);
    }
  }

  /** Once the image of the files has been read, a lookup finds the first of the first 32 files of that name, if any. */
  lemma LookupInImage(files: seq<File>, name: seq<Byte>)
    requires AllSound(files)
    ensures Packable(files) && WellFormed(Image(files), 0)
    ensures var table := FirstOf(Walk(Image(files), 0), 32);
      && (forall i :: 0 <= i < |table| ==> |table[i]| >= SIZEOF_HEADER)
      && match FirstNamed(FirstOf(files, 32), name)
         case None => Lookup(table, name) == None
         case Some(f) => Lookup(table, name).Some? && var h := Lookup(table, name).value;
           |h| >= SIZEOF_HEADER && Name(h) == name == f.name && Data(h) == f.data
  {
    ImageRoundTrip(files);
    LookupFinds(FirstOf(Walk(Image(files), 0), 32), FirstOf(files, 32), name);
  }
}
