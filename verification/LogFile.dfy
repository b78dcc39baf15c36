/**
  A file opened for reading and writing, as src/logqueue.c and src/logdb.c use it: a byte
  sequence and a position.  A write is all or nothing.  Which writes fail is not up to the
  program: `fails(k)` says it of the k-th write ever made to the file, and is arbitrary.
 */
module LogFile {
  import opened Words

  /** A file between openings. */
  datatype Image = Image(bytes: seq<Byte>, fails: nat -> bool, writes: nat) {
    predicate NextFails() {
      fails(writes)
    }

    /** After a write of `data` at the end. */
    function Appended(data: seq<Byte>): Image {
      Image(if NextFails() then bytes else bytes + data, fails, writes + 1)
    }

    /** None of the next `n` writes fails. */
    ghost predicate Smooth(n: nat) {
      forall k :: writes <= k < writes + n ==> !fails(k)
    }
  }

  /** The three files of a log: data, index and pointer. */
  datatype Files = Files(dat: Image, idx: Image, ptr: Image)

  class File {
    var bytes: seq<Byte>
    var pos: nat
    const fails: nat -> bool
    var writes: nat

    function Now(): Image
      reads this
    {
      Image(bytes, fails, writes)
    }

    constructor (image: Image)
      ensures Now() == image && pos == 0
    {
      bytes, pos, fails, writes := image.bytes, 0, image.fails, image.writes;
    }

    /** `lseek(fd, back, SEEK_END)` for a position at or before the end. */
    method SeekEnd(back: nat) returns (ok: bool, at: nat)
      modifies `pos
      ensures ok == (back <= |bytes|)
      ensures if ok then at == pos == |bytes| - back else pos == old(pos)
    {
      ok, at := back <= |bytes|, 0;
      if ok {
        pos := |bytes| - back;
        at := pos;
      }
    }

    /** `lseek(fd, to, SEEK_SET)`. */
    method SeekSet(to: nat)
      modifies `pos
      ensures pos == to
    {
      pos := to;
    }

    /** `read`: what there is, up to `n` bytes. */
    method Read(n: nat) returns (data: seq<Byte>)
      modifies `pos
      ensures data == if old(pos) < pos <= |bytes| then bytes[old(pos)..pos] else []
      ensures pos == if old(pos) + n <= |bytes| then old(pos) + n else if old(pos) <= |bytes| then |bytes| else old(pos)
    {
      if pos + n <= |bytes| {
        data := bytes[pos..pos + n];
        pos := pos + n;
      } else if pos <= |bytes| {
        data := bytes[pos..];
        pos := |bytes|;
      } else {
        data := [];
      }
    }

    /** `write` at the end of the file or within it. */
    method Write(data: seq<Byte>) returns (ok: bool)
      requires pos <= |bytes|
      modifies this
      ensures ok == !fails(old(writes)) && writes == old(writes) + 1
      ensures !ok ==> bytes == old(bytes) && pos == old(pos)
      ensures ok ==> bytes == Overwrite(old(bytes), old(pos), data) && pos == old(pos) + |data|
      ensures old(pos) == |old(bytes)| ==> Now() == old(Now()).Appended(data)
    {
      ok := !fails(writes);
      writes := writes + 1;
      if ok {
        bytes := Overwrite(bytes, pos, data);
        pos := pos + |data|;
      }
    }
  }

  function Overwrite(bytes: seq<Byte>, pos: nat, data: seq<Byte>): (r: seq<Byte>)
    requires pos <= |bytes|
    ensures pos == |bytes| ==> r == bytes + data
  {
    bytes[..pos] + data + (if pos + |data| <= |bytes| then bytes[pos + |data|..] else [])
  }

  /** An unsigned 32-bit number as it lies in memory. */
  function Encode(n: U32): (b: seq<Byte>)
    ensures |b| == 4
  {
    [n % 0x100, n / 0x100 % 0x100, n / 0x1_0000 % 0x100, n / 0x100_0000]
  }

  function Decode(b: seq<Byte>): U32
    requires |b| == 4
  {
    Word(b[0], b[1], b[2], b[3])
  }

  lemma {:induction false} DecodeEncode(n: U32)
    ensures Decode(Encode(n)) == n
  {
    WordParts(n);
  }
}
