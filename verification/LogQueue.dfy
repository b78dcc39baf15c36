/**
  src/logqueue.c: a FIFO of byte strings in three files.  The data file holds the strings one
  after another, the index file one (offset, length) record for each, and the pointer file one
  number for each dequeue: the index offset of the first record still queued.
 */
module LogQueue {
  import opened Words
  import opened LogFile

  const RECORD: nat := 8
  const HEAD_SIZE: nat := 4

  /** The last number in the pointer file, or 0. */
  function HeadOffset(ptr: seq<Byte>): nat {
    if |ptr| < HEAD_SIZE then 0 else Decode(ptr[|ptr| - HEAD_SIZE..])
  }

  function RecordAt(idx: seq<Byte>, k: nat): (U32, U32)
    requires (k + 1) * RECORD <= |idx|
  {
    (Decode(idx[k * RECORD..k * RECORD + 4]), Decode(idx[k * RECORD + 4..k * RECORD + 8]))
  }

  /** Every record lies within the data, and the head is a record boundary. */
  ghost predicate WellFormed(dat: seq<Byte>, idx: seq<Byte>, ptr: seq<Byte>) {
    && |idx| % RECORD == 0 && |idx| < WORD && |dat| < WORD
    && HeadOffset(ptr) % RECORD == 0 && HeadOffset(ptr) <= |idx|
    && forall k: nat :: k < |idx| / RECORD ==> RecordAt(idx, k).0 + RecordAt(idx, k).1 <= |dat|
  }

  function Item(dat: seq<Byte>, idx: seq<Byte>, k: nat): seq<Byte>
    requires (k + 1) * RECORD <= |idx| && RecordAt(idx, k).0 + RecordAt(idx, k).1 <= |dat|
  {
    dat[RecordAt(idx, k).0..RecordAt(idx, k).0 + RecordAt(idx, k).1]
  }

  /** Everything ever enqueued. */
  ghost function Log(dat: seq<Byte>, idx: seq<Byte>, ptr: seq<Byte>): (items: seq<seq<Byte>>)
    requires WellFormed(dat, idx, ptr)
    ensures |items| == |idx| / RECORD
  {
    seq(|idx| / RECORD, k requires 0 <= k < |idx| / RECORD => Item(dat, idx, k))
  }

  /** What is still queued. */
  ghost function Queued(dat: seq<Byte>, idx: seq<Byte>, ptr: seq<Byte>): seq<seq<Byte>>
    requires WellFormed(dat, idx, ptr)
  {
    Log(dat, idx, ptr)[HeadOffset(ptr) / RECORD..]
  }

  /** After the first write of an enqueue: bytes no record points to change nothing. */
  lemma DataWritten(dat: seq<Byte>, idx: seq<Byte>, ptr: seq<Byte>, data: seq<Byte>)
    requires WellFormed(dat, idx, ptr) && |dat| + |data| < WORD
    ensures WellFormed(dat + data, idx, ptr) && Log(dat + data, idx, ptr) == Log(dat, idx, ptr)
  {
    forall k: nat | k < |idx| / RECORD
      ensures RecordAt(idx, k).0 + RecordAt(idx, k).1 <= |dat + data| && Item(dat + data, idx, k) == Item(dat, idx, k)
    {
    }
  }

  lemma RecordKept(idx: seq<Byte>, more: seq<Byte>, k: nat)
    requires (k + 1) * RECORD <= |idx|
    ensures RecordAt(idx + more, k) == RecordAt(idx, k)
  {
    assert (idx + more)[k * RECORD..k * RECORD + 4] == idx[k * RECORD..k * RECORD + 4];
    assert (idx + more)[k * RECORD + 4..k * RECORD + 8] == idx[k * RECORD + 4..k * RECORD + 8];
  }

  lemma RecordAdded(idx: seq<Byte>, offset: U32, length: U32)
    requires |idx| % RECORD == 0
    ensures RecordAt(idx + (Encode(offset) + Encode(length)), |idx| / RECORD) == (offset, length)
  {
    var s := idx + (Encode(offset) + Encode(length));
    assert |idx| / RECORD * RECORD == |idx|;
    assert s[|idx|..|idx| + 4] == Encode(offset) && s[|idx| + 4..|idx| + 8] == Encode(length);
    DecodeEncode(offset);
    DecodeEncode(length);
  }

  /** After the second write the string is at the end of the queue. */
  lemma RecordWritten(dat: seq<Byte>, idx: seq<Byte>, ptr: seq<Byte>, data: seq<Byte>)
    requires WellFormed(dat, idx, ptr) && |dat| + |data| < WORD && |idx| + RECORD < WORD
    ensures
      var idx' := idx + (Encode(|dat|) + Encode(|data|));
      && WellFormed(dat + data, idx', ptr)
      && Log(dat + data, idx', ptr) == Log(dat, idx, ptr) + [data]
      && Queued(dat + data, idx', ptr) == Queued(dat, idx, ptr) + [data]
  {
    hide RecordAt, HeadOffset, Encode;
    var more := Encode(|dat|) + Encode(|data|);
    var idx' := idx + more;
    DataWritten(dat, idx, ptr, data);
    RecordAdded(idx, |dat|, |data|);
    forall k: nat | k < |idx| / RECORD
      ensures RecordAt(idx', k) == RecordAt(idx, k)
    {
      RecordKept(idx, more, k);
    }
    assert |idx'| / RECORD == |idx| / RECORD + 1;
    assert WellFormed(dat + data, idx', ptr);
    assert Item(dat + data, idx', |idx| / RECORD) == data;
    var (l, l') := (Log(dat + data, idx, ptr), Log(dat + data, idx', ptr));
    forall k: nat | k < |idx| / RECORD
      ensures l'[k] == l[k]
    {
      assert RecordAt(idx', k) == RecordAt(idx, k);
    }
    assert l' == l + [data];
  }

  lemma HeadMoved(ptr: seq<Byte>, offset: U32)
    ensures HeadOffset(ptr + Encode(offset)) == offset
  {
    var s := ptr + Encode(offset);
    assert s[|s| - HEAD_SIZE..] == Encode(offset);
    DecodeEncode(offset);
  }

  lemma NextBoundary(h: nat, n: nat)
    requires h % RECORD == 0 && n % RECORD == 0 && h < n
    ensures h + RECORD <= n && (h + RECORD) % RECORD == 0 && (h + RECORD) / RECORD == h / RECORD + 1 <= n / RECORD
  {
  }

  /** After the one write of a dequeue the first string is gone from the queue. */
  lemma PointerWritten(dat: seq<Byte>, idx: seq<Byte>, ptr: seq<Byte>)
    requires WellFormed(dat, idx, ptr) && HeadOffset(ptr) < |idx|
    ensures HeadOffset(ptr) + RECORD <= |idx| && Queued(dat, idx, ptr) != []
    ensures
      var ptr' := ptr + Encode(HeadOffset(ptr) + RECORD);
      && WellFormed(dat, idx, ptr') && HeadOffset(ptr') == HeadOffset(ptr) + RECORD
      && Log(dat, idx, ptr') == Log(dat, idx, ptr)
      && Queued(dat, idx, ptr') == Queued(dat, idx, ptr)[1..]
  {
    HeadMoved(ptr, HeadOffset(ptr) + RECORD);
    hide HeadOffset, RecordAt, Item, Encode;
    NextBoundary(HeadOffset(ptr), |idx|);
    var ptr' := ptr + Encode(HeadOffset(ptr) + RECORD);
    var l := Log(dat, idx, ptr);
    assert Log(dat, idx, ptr') == l;
    assert l[HeadOffset(ptr) / RECORD..][1..] == l[HeadOffset(ptr) / RECORD + 1..];
  }

  lemma FirstQueued(dat: seq<Byte>, idx: seq<Byte>, ptr: seq<Byte>)
    requires WellFormed(dat, idx, ptr) && HeadOffset(ptr) < |idx|
    ensures HeadOffset(ptr) + RECORD <= |idx|
    ensures
      var h := HeadOffset(ptr);
      var r := (Decode(idx[h..h + 4]), Decode(idx[h + 4..h + 8]));
      r.0 + r.1 <= |dat| && Queued(dat, idx, ptr) != [] && Queued(dat, idx, ptr)[0] == dat[r.0..r.0 + r.1]
  {
    var k := HeadOffset(ptr) / RECORD;
    assert k * RECORD == HeadOffset(ptr);
    assert RecordAt(idx, k).0 + RecordAt(idx, k).1 <= |dat|;
    assert Queued(dat, idx, ptr)[0] == Item(dat, idx, k);
  }

  lemma RecordHalves(b: seq<Byte>, o: nat)
    requires o + RECORD <= |b|
    ensures b[o..o + RECORD][0..4] == b[o..o + 4] && b[o..o + RECORD][4..8] == b[o + 4..o + 8]
  {
  }

  /** The queue is empty when the head has reached the end of the index; there are no part records. */
  lemma EmptyQueue(dat: seq<Byte>, idx: seq<Byte>, ptr: seq<Byte>)
    requires WellFormed(dat, idx, ptr)
    ensures Queued(dat, idx, ptr) == [] <==> HeadOffset(ptr) == |idx|
    ensures HeadOffset(ptr) == |idx| || HeadOffset(ptr) + RECORD <= |idx|
  {
    hide RecordAt, Item;
  }

  class Queue {
    const dfd: File
    const ifd: File
    const pfd: File

    ghost predicate Valid()
      reads this, dfd, ifd, pfd
    {
      && dfd != ifd && dfd != pfd && ifd != pfd
      && WellFormed(dfd.bytes, ifd.bytes, pfd.bytes)
    }

    /** The files as they are. */
    function Disk(): Files
      reads this, dfd, ifd, pfd
    {
      Files(dfd.Now(), ifd.Now(), pfd.Now())
    }

    /** Everything ever enqueued. */
    ghost function History(): seq<seq<Byte>>
      requires Valid()
      reads this, dfd, ifd, pfd
    {
      Log(dfd.bytes, ifd.bytes, pfd.bytes)
    }

    /** How many of those have been dequeued. */
    ghost function Done(): (n: nat)
      requires Valid()
      reads this, dfd, ifd, pfd
      ensures n <= |History()|
    {
      HeadOffset(pfd.bytes) / RECORD
    }

    /** What is queued, oldest first. */
    ghost function Contents(): (s: seq<seq<Byte>>)
      requires Valid()
      reads this, dfd, ifd, pfd
      ensures s == History()[Done()..]
    {
      Queued(dfd.bytes, ifd.bytes, pfd.bytes)
    }

    /** `lqopen`, on whatever the files hold; `lseek` and `read` there leave no trace. */
    constructor (files: Files)
      requires WellFormed(files.dat.bytes, files.idx.bytes, files.ptr.bytes)
      ensures Valid() && fresh(dfd) && fresh(ifd) && fresh(pfd) && Disk() == files
    {
      dfd := new File(files.dat);
      ifd := new File(files.idx);
      pfd := new File(files.ptr);
    }

    /** The common start of all operations: the head offset, read from the end of the pointer file. */
    method ReadHead() returns (offset: nat)
      requires Valid()
      modifies pfd`pos
      ensures offset == HeadOffset(pfd.bytes)
    {
      var ok, at := pfd.SeekEnd(HEAD_SIZE);
      offset := 0;
      if ok {
        var b := pfd.Read(HEAD_SIZE);
        assert b == pfd.bytes[|pfd.bytes| - HEAD_SIZE..];
        offset := Decode(b);
      }
    }

    /** `lqempty`. */
    method IsEmpty() returns (empty: bool)
      requires Valid()
      modifies pfd`pos, ifd`pos
      ensures empty == (Contents() == [])
    {
      var offset := ReadHead();
      var ok, size := ifd.SeekEnd(0);
      empty := size == offset;
      if !empty {
        ifd.SeekSet(offset);
        FirstQueued(dfd.bytes, ifd.bytes, pfd.bytes);
      }
    }

    /**
      `lqenqueue`.  It succeeds exactly when both writes do, and then appends; a failure of
      either leaves the queue as it was, and the files in the state a crash at that point would
      leave.
     */
    method Enqueue(data: seq<Byte>) returns (ok: bool)
      requires Valid() && |dfd.bytes| + |data| < WORD && |ifd.bytes| + RECORD < WORD
      modifies dfd, ifd
      ensures Valid() && pfd.Now() == old(pfd.Now())
      ensures ok <==> !old(dfd.Now()).NextFails() && !old(ifd.Now()).NextFails()
      ensures dfd.Now() == old(dfd.Now()).Appended(data)
      ensures ifd.Now() == if old(dfd.Now()).NextFails() then old(ifd.Now())
                           else old(ifd.Now()).Appended(Encode(|old(dfd.bytes)|) + Encode(|data|))
      ensures Contents() == if ok then old(Contents()) + [data] else old(Contents())
      ensures History() == if ok then old(History()) + [data] else old(History())
      ensures Done() == old(Done())
    {
      DataWritten(dfd.bytes, ifd.bytes, pfd.bytes, data);
      RecordWritten(dfd.bytes, ifd.bytes, pfd.bytes, data);
      var _, offset := dfd.SeekEnd(0);
      var record := Encode(offset) + Encode(|data|);
      ok := dfd.Write(data);
      if ok {
        var _, _ := ifd.SeekEnd(0);
        ok := ifd.Write(record);
      }
    }

    /** The reading part of `lqfront` and `lqdequeue`: the record at the head, and its data. */
    method Fetch(offset: nat) returns (ok: bool, data: seq<Byte>)
      requires Valid() && offset == HeadOffset(pfd.bytes)
      modifies ifd`pos, dfd`pos
      ensures ok == (Contents() != [])
      ensures ok ==> data == Contents()[0] && ifd.pos == offset + RECORD
    {
      hide Queued, WellFormed, HeadOffset, Decode, Overwrite;
      EmptyQueue(dfd.bytes, ifd.bytes, pfd.bytes);
      data := [];
      ifd.SeekSet(offset);
      var record := ifd.Read(RECORD);
      ok := |record| == RECORD;
      if ok {
        FirstQueued(dfd.bytes, ifd.bytes, pfd.bytes);
        RecordHalves(ifd.bytes, offset);
        var start, length := Decode(record[0..4]), Decode(record[4..8]);
        dfd.SeekSet(start);
        data := dfd.Read(length);
        ok := |data| == length;
      }
    }

    /** `lqfront`. */
    method Front() returns (ok: bool, data: seq<Byte>)
      requires Valid()
      modifies pfd`pos, ifd`pos, dfd`pos
      ensures ok == (Contents() != [])
      ensures ok ==> data == Contents()[0]
    {
      var offset := ReadHead();
      ok, data := Fetch(offset);
    }

    /**
      `lqdequeue`.  It fails exactly on an empty queue or a failed write, and then leaves the
      queue as it was.
     */
    method Dequeue() returns (ok: bool, data: seq<Byte>)
      requires Valid()
      modifies pfd, ifd`pos, dfd`pos
      ensures Valid() && History() == old(History())
      ensures ok <==> old(Contents()) != [] && !old(pfd.Now()).NextFails()
      ensures pfd.writes == old(pfd.writes) + (if old(Contents()) != [] then 1 else 0)
      ensures ok ==> old(Contents()) != [] && data == old(Contents())[0] && Contents() == old(Contents())[1..]
      ensures ok ==> Done() == old(Done()) + 1
      ensures !ok ==> Contents() == old(Contents()) && Done() == old(Done()) && pfd.bytes == old(pfd.bytes)
    {
      hide Log, Queued, HeadOffset, RecordAt, Item;
      var offset := ReadHead();
      ok, data := Fetch(offset);
      if ok {
        FirstQueued(dfd.bytes, ifd.bytes, pfd.bytes);
        PointerWritten(dfd.bytes, ifd.bytes, pfd.bytes);
        var _, _ := pfd.SeekEnd(0);
        offset := ifd.pos;
        ok := offset != 0xffff_ffff;
        if ok {
          ok := pfd.Write(Encode(offset));
        }
      }
    }
  }
}
