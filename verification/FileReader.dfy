/**
 Random access to a sequential stream through a growing cache. The cache is always
 a prefix of the stream, and every answered read agrees with the whole stream. A
 read can also run past the end of the cache: when the cache grows to exactly the
 offset asked for, it is one byte short.
 */
module FileReaders {
  import opened Bytes
  import opened Options

  /** A byte or the end of the file; or a write past the end of the cache. */
  datatype ReadResult = Overrun | Got(value: Option<Byte>)

  /** What reading `offset` must answer. */
  function Answer(file: seq<Byte>, offset: nat): Option<Byte> {
    if offset < |file| then Some(file[offset]) else None
  }

  /** The number of bytes of `file` in a range. */
  function Available(file: seq<Byte>, offset: nat, n: nat): nat {
    if offset >= |file| then 0 else if offset + n <= |file| then n else |file| - offset
  }

  function Slice(file: seq<Byte>, offset: nat, n: nat): seq<Byte> {
    if offset >= |file| then [] else file[offset..offset + Available(file, offset, n)]
  }

  function Max(a: nat, b: nat): nat {
    if a < b then b else a
  }

  class FileReader {
    const file: seq<Byte>
    /** How much of the stream has been consumed. */
    var position: nat
    var fileBytes: array<Byte>
    var fileExtent: nat
    var eofReached: bool

    ghost predicate Valid()
      reads this, fileBytes
    {
      && fileBytes.Length >= 512
      && fileExtent <= fileBytes.Length && fileExtent <= |file|
      && fileBytes[..fileExtent] == file[..fileExtent]
      && position == fileExtent
      && (eofReached ==> fileExtent == |file|)
    }

    /** Without a stream the reader starts at the end of an empty file. */
    constructor (stream: Option<seq<Byte>>)
      ensures Valid() && fresh(fileBytes) && fileBytes.Length == 512 && fileExtent == 0
      ensures file == (if stream.Some? then stream.value else []) && (eofReached <==> stream.None?)
    {
      file := if stream.Some? then stream.value else [];
      position, fileExtent := 0, 0;
      fileBytes := new Byte[512](_ => 0);
      eofReached := stream.None?;
    }

    /** Reads of `offset` that write past the cache. */
    ghost predicate Overruns(offset: nat)
      reads this, fileBytes
    {
      !eofReached && fileExtent <= offset && 2 * fileBytes.Length <= offset < |file|
    }

    /** Moves the cache to a block of `newSize` bytes. */
    method Resize(newSize: nat)
      requires Valid() && newSize >= fileBytes.Length
      modifies this`fileBytes
      ensures Valid() && fresh(fileBytes) && fileBytes.Length == newSize
    {
      var block := new Byte[newSize](_ => 0);
      forall i | 0 <= i < fileBytes.Length {
        block[i] := fileBytes[i];
      }
      assert block[..fileExtent] == fileBytes[..fileExtent];
      fileBytes := block;
    }

    /** Reads up to `n` bytes of the stream to the end of the cached part. */
    method ReadStream(n: nat) returns (bytesRead: nat, overrun: bool)
      requires Valid()
      modifies this`position, fileBytes
      ensures overrun <==> fileBytes.Length < fileExtent + Available(file, fileExtent, n)
      ensures !overrun ==>
                && bytesRead == Available(file, fileExtent, n) && position == fileExtent + bytesRead
                && fileBytes[..position] == file[..position]
    {
      bytesRead, overrun := 0, false;
      while bytesRead < n
        invariant bytesRead <= Available(file, fileExtent, n)
        invariant position == fileExtent + bytesRead <= fileBytes.Length
        invariant fileBytes[..position] == file[..position]
      {
        if position == |file| {
          break;
        }
        if position >= fileBytes.Length {
          return bytesRead, true;
        }
        fileBytes[position] := file[position];
        position, bytesRead := position + 1, bytesRead + 1;
      }
    }

    /**
     The byte at `offset`, reading the stream up to it if needed. The write past the
     cache happens exactly when an offset inside the file is at least twice the
     capacity and not cached yet. The capacity changes only for an offset behind it
     that has to be looked for, and then to twice the old one or to the offset.
     */
    method Read(offset: nat) returns (r: ReadResult)
      requires Valid()
      modifies this, fileBytes
      ensures r.Overrun? <==> old(Overruns(offset))
      ensures r.Got? ==> Valid() && r.value == Answer(file, offset)
      ensures r.Got? ==> fileExtent == Max(old(fileExtent), Available(file, 0, offset + 1))
      ensures r.Got? ==> (eofReached <==> old(eofReached) || offset >= |file|)
      ensures fileBytes == old(fileBytes) || fresh(fileBytes)
      ensures fileBytes.Length ==
              if offset < old(fileExtent) || old(eofReached) || offset < old(fileBytes.Length) then
                old(fileBytes.Length)
              else
                Max(2 * old(fileBytes.Length), offset)
    {
      if offset >= fileExtent {
        if eofReached {
          return Got(None);
        }
        if offset >= fileBytes.Length {
          var doubleCapacity := fileBytes.Length * 2;
          var newSize := if offset < doubleCapacity then doubleCapacity else offset;
          Resize(newSize);
        }
        var expectedBytes := 1 + (offset - fileExtent);
        var bytesRead, overrun := ReadStream(expectedBytes);
        if overrun {
          return Overrun;
        }
        fileExtent := fileExtent + bytesRead;
        if expectedBytes != bytesRead {
          eofReached := true;
          return Got(None);
        }
      }
      assert fileBytes[..fileExtent][offset] == file[offset];
      return Got(Some(fileBytes[offset]));
    }

    /** Copies a range of the file to the front of `buf`, as far as the file goes. */
    method ReadRange(buf: array<Byte>, offset: nat, bytesToRead: nat) returns (overrun: bool, bytesRead: nat)
      requires Valid() && buf != fileBytes && bytesToRead <= buf.Length
      modifies this, fileBytes, buf
      ensures overrun <==> bytesToRead > 0 && old(Overruns(offset + bytesToRead - 1))
      ensures !overrun && bytesToRead > 0 ==>
                fileExtent == Max(old(fileExtent), Available(file, 0, offset + bytesToRead))
      ensures fileBytes == old(fileBytes) || fresh(fileBytes)
      ensures !overrun ==> Valid() && bytesRead == Available(file, offset, bytesToRead)
      ensures !overrun ==> bytesRead <= buf.Length && buf[..bytesRead] == Slice(file, offset, bytesToRead)
      ensures !overrun ==> buf[bytesRead..] == old(buf[..])[bytesRead..]
    {
      overrun, bytesRead := false, 0;
      if bytesToRead == 0 {
        return;
      }
      var lastIndex := offset + bytesToRead - 1;
      var last := Read(lastIndex);
      if last.Overrun? {
        return true, 0;
      }
      var i := offset;
      while i <= lastIndex
        modifies buf
        invariant offset <= i <= lastIndex + 1 && bytesRead == i - offset
        invariant i > offset ==> i <= fileExtent
        invariant Valid()
        invariant forall j :: 0 <= j < bytesRead ==> buf[j] == file[offset + j]
        invariant buf[bytesRead..] == old(buf[..])[bytesRead..]
      {
        if i >= fileExtent {
          break;
        }
        ghost var cached := fileBytes[..];
        assert fileBytes[..fileExtent][i] == file[i];
        buf[i - offset] := fileBytes[i];
        assert fileBytes[..] == cached;
        bytesRead, i := bytesRead + 1, i + 1;
      }
    }

    /** Caches the whole file; reading in order never overruns. */
    method ReadAll()
      requires Valid()
      modifies this, fileBytes
      ensures Valid() && eofReached && fileBytes[..fileExtent] == file
      ensures fileBytes == old(fileBytes) || fresh(fileBytes)
    {
      var i := 0;
      while true
        invariant Valid() && i <= |file| && i <= fileExtent
        invariant fileBytes == old(fileBytes) || fresh(fileBytes)
        decreases |file| - i
      {
        var r := Read(i);
        if r == Got(None) {
          break;
        }
        i := i + 1;
      }
    }
  }

  /** The capacity after `j` doublings. */
  function Doubled(capacity: nat, j: nat): nat {
    if j == 0 then capacity else 2 * Doubled(capacity, j - 1)
  }

  lemma {:induction false} DoubledMore(capacity: nat, i: nat, j: nat)
    requires i <= j
    ensures Doubled(capacity, i) <= Doubled(capacity, j)
  {
    if i < j {
      DoubledMore(capacity, i, j - 1);
    }
  }

  ghost predicate AllBelow(offsets: seq<nat>, k: nat, bound: nat)
    requires k <= |offsets|
  {
    forall i | 0 <= i < k :: offsets[i] < bound
  }

  /** Read `k` jumps a whole doubling: those before it were below some size of the cache, it is at least twice that. */
  ghost predicate Leaps(offsets: seq<nat>, capacity: nat, j: nat, k: nat)
    requires k < |offsets|
  {
    var size := Doubled(capacity, j);
    AllBelow(offsets, k, size) && 2 * size <= offsets[k]
  }

  /** The read that leaps, and that the end of the file was not met before it. */
  ghost predicate Trips(offsets: seq<nat>, n: nat, capacity: nat, k: nat) {
    k < |offsets| && AllBelow(offsets, k + 1, n) && exists j: nat :: Leaps(offsets, capacity, j, k)
  }

  /** The capacity is the least doubling above all reads so far. */
  ghost predicate LeastAbove(offsets: seq<nat>, k: nat, capacity: nat, j: nat)
    requires k <= |offsets|
  {
    && AllBelow(offsets, k, Doubled(capacity, j))
    && forall i: nat | i < j :: !AllBelow(offsets, k, Doubled(capacity, i))
  }

  lemma TripsExactly(offsets: seq<nat>, n: nat, capacity: nat, j: nat, k: nat)
    requires k < |offsets| && LeastAbove(offsets, k, capacity, j) && AllBelow(offsets, k, n)
    ensures Trips(offsets, n, capacity, k) <==> 2 * Doubled(capacity, j) <= offsets[k] < n
  {
    if Trips(offsets, n, capacity, k) {
      var m: nat :| Leaps(offsets, capacity, m, k);
      assert j <= m;
      DoubledMore(capacity, j, m);
      assert offsets[k] < n;
    }
    if 2 * Doubled(capacity, j) <= offsets[k] < n {
      assert Leaps(offsets, capacity, j, k);
    }
  }

  lemma StillLeast(offsets: seq<nat>, k: nat, capacity: nat, j: nat)
    requires k < |offsets| && LeastAbove(offsets, k, capacity, j) && offsets[k] < 2 * Doubled(capacity, j)
    ensures LeastAbove(offsets, k + 1, capacity, if offsets[k] < Doubled(capacity, j) then j else j + 1)
  {
    forall i: nat | i <= j && (i == j ==> Doubled(capacity, j) <= offsets[k])
      ensures !AllBelow(offsets, k + 1, Doubled(capacity, i))
    {
      assert i < j ==> !AllBelow(offsets, k, Doubled(capacity, i));
    }
    if Doubled(capacity, j) <= offsets[k] {
      assert Doubled(capacity, j + 1) == 2 * Doubled(capacity, j);
    }
  }

  /** One read more of a file whose end may have been met. */
  lemma MetEnd(offsets: seq<nat>, k: nat, n: nat)
    requires k < |offsets|
    ensures AllBelow(offsets, k + 1, n) <==> AllBelow(offsets, k, n) && offsets[k] < n
  {
  }

  /**
   Reads in any order. Every answer is the file's. One overruns exactly when, before
   the end of the file has been met, it leaps over a whole doubling of the cache.
   */
  method ReadEach(reader: FileReader, offsets: seq<nat>) returns (answers: seq<Option<Byte>>, overrun: bool)
    requires reader.Valid()
    modifies reader, reader.fileBytes
    ensures |answers| <= |offsets| && (overrun <==> |answers| < |offsets|)
    ensures forall i :: 0 <= i < |answers| ==> answers[i] == Answer(reader.file, offsets[i])
    ensures old(reader.eofReached) ==> !overrun
    ensures forall k: nat | k < |offsets| && k <= |answers| ::
              (overrun && k == |answers|) <==>
              (!old(reader.eofReached) && Trips(offsets, |reader.file|, old(reader.fileBytes.Length), k))
  {
    answers, overrun := [], false;
    ghost var n, capacity, j: nat := |reader.file|, reader.fileBytes.Length, 0;
    for k := 0 to |offsets|
      invariant reader.Valid()
      invariant reader.eofReached <==> old(reader.eofReached) || !AllBelow(offsets, k, n)
      invariant reader.fileBytes == old(reader.fileBytes) || fresh(reader.fileBytes)
      invariant !reader.eofReached ==>
                  LeastAbove(offsets, k, capacity, j) && reader.fileBytes.Length == Doubled(capacity, j)
      invariant |answers| == k
      invariant forall i :: 0 <= i < k ==> answers[i] == Answer(reader.file, offsets[i])
      invariant forall i: nat | i < k :: old(reader.eofReached) || !Trips(offsets, n, capacity, i)
    {
      ghost var ended := reader.eofReached;
      MetEnd(offsets, k, n);
      if !ended {
        TripsExactly(offsets, n, capacity, j, k);
      }
      var r := reader.Read(offsets[k]);
      if r.Overrun? {
        return answers, true;
      }
      answers := answers + [r.value];
      if !ended && offsets[k] < n {
        StillLeast(offsets, k, capacity, j);
        j := if offsets[k] < Doubled(capacity, j) then j else j + 1;
      }
    }
  }

  /** For a new reader it is a matter of the offsets and the length of the file alone. */
  method ReadEachNew(stream: seq<Byte>, offsets: seq<nat>) returns (answers: seq<Option<Byte>>, overrun: bool)
    ensures |answers| <= |offsets| && (overrun <==> |answers| < |offsets|)
    ensures forall i :: 0 <= i < |answers| ==> answers[i] == Answer(stream, offsets[i])
    ensures overrun ==> Trips(offsets, |stream|, 512, |answers|)
    ensures overrun <==> exists k: nat :: Trips(offsets, |stream|, 512, k)
    ensures (forall offset <- offsets :: offset < 1024) ==> !overrun
  {
    var reader := new FileReader(Some(stream));
    answers, overrun := ReadEach(reader, offsets);
    forall k: nat, j: nat | k < |offsets| && Leaps(offsets, 512, j, k)
      ensures offsets[k] >= 1024 && offsets[k] in offsets
    {
      DoubledMore(512, 0, j);
    }
  }

  /** After the whole file has been read, reads in any order answer as the file does. */
  method ReadAllThenEach(stream: seq<Byte>, offsets: seq<nat>) returns (answers: seq<Option<Byte>>)
    ensures |answers| == |offsets|
    ensures forall i :: 0 <= i < |answers| ==> answers[i] == Answer(stream, offsets[i])
  {
    var reader := new FileReader(Some(stream));
    reader.ReadAll();
    var overrun;
    answers, overrun := ReadEach(reader, offsets);
  }

  /** A first read far into a long file writes past the cache. */
  method FarRead(stream: seq<Byte>, offset: nat) returns (r: ReadResult)
    ensures r.Overrun? <==> 1024 <= offset < |stream|
    ensures r.Got? ==> r.value == Answer(stream, offset)
  {
    var reader := new FileReader(Some(stream));
    r := reader.Read(offset);
  }
}
