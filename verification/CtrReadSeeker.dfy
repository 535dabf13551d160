/** Random access to an object encrypted in counter mode (`ctrReadSeeker`): the
    file holds a 16-byte IV and then the encrypted bytes. */
module CtrReadSeeker {
  import opened Keys
  import opened Counter

  const TWO63: int := 0x8000_0000_0000_0000

  const SEEK_START := 0
  const SEEK_CURRENT := 1
  const SEEK_END := 2

  predicate Int64(x: int) {
    -TWO63 <= x < TWO63
  }

  /** Wrap-around of 64-bit signed addition. */
  function Wrap(x: int): (r: int)
    requires -2 * TWO63 <= x < 2 * TWO63
    ensures Int64(r)
  {
    if x >= TWO63 then x - 2 * TWO63 else if x < -TWO63 then x + 2 * TWO63 else x
  }

  /** Byte `q` of the content under sequential decryption from the start. */
  function PlainAt(file: Key, block: Key -> Key, iv: Key, q: nat): Byte
    requires 16 + q < |file|
  {
    Xor(file[16 + q], Pad(block, iv, q))
  }

  lemma StreamByte(block: Key -> Key, iv: Key, start: nat, used: nat, at: nat, k: nat)
    requires at == 16 * start + used
    ensures Pad(block, Plus(iv, start), used + k) == Pad(block, iv, at + k)
  {
    PadShifts(block, iv, start, used + k);
  }

  datatype SeekResult = At(target: int) | InvalidWhence | NegativeOffset | BadFileOffset | UnexpectedEof

  class Reader {
    const file: Key
    const block: Key -> Key
    const iv: Key
    var filePos: nat
    var ctr: Key
    var used: nat
    var currentOffset: int
    ghost var startBlock: nat

    /** The file position minus the IV is the key stream position; the recorded
        offset is ahead of it by less than a block. */
    ghost predicate Valid()
      reads this
    {
      && |iv| == 16 && |file| < TWO63 && 16 <= filePos < TWO63
      && ctr == Plus(iv, startBlock)
      && filePos - 16 == StreamPosition()
      && 0 <= Skew() < 16
    }

    ghost function StreamPosition(): nat
      reads this
    {
      16 * startBlock + used
    }

    function Position(): int
      reads this
    {
      filePos - 16
    }

    function Skew(): int
      reads this
    {
      currentOffset - Position()
    }

    function ContentSize(): nat {
      if |file| < 16 then 0 else |file| - 16
    }

    constructor (file: Key, block: Key -> Key, iv: Key)
      requires |iv| == 16 && |file| < TWO63
      ensures Valid() && this.file == file && this.block == block && this.iv == iv
      ensures Position() == 0 && Skew() == 0
    {
      this.file, this.block, this.iv := file, block, iv;
      filePos, ctr, used, currentOffset, startBlock := 16, iv, 0, 0, 0;
      new;
      PlusZero(iv);
      var r := Seek(0, SEEK_START);
    }

    /** How much a read of `want` bytes at `pos` finds in the file. */
    function Available(pos: nat, want: nat): (n: nat)
    {
      if pos >= |file| then 0 else if |file| - pos < want then |file| - pos else want
    }

    /** A read returns what is there, up to the length of the buffer: the bytes of
        sequential decryption at this position. */
    method Read(p: array<Byte>) returns (n: nat, eof: bool)
      requires Valid()
      modifies this, p
      ensures Valid() && startBlock == old(startBlock)
      ensures eof <==> n == 0 < p.Length
      ensures n == if old(filePos) >= |file| then 0
                   else if |file| - old(filePos) < p.Length then |file| - old(filePos) else p.Length
      ensures Position() == old(Position()) + n && Skew() == old(Skew())
      ensures forall k :: 0 <= k < n ==> p[k] == PlainAt(file, block, iv, old(Position()) + k)
      ensures forall k :: n <= k < p.Length ==> p[k] == old(p[k])
    {
      n := ReadPlain(p);
      filePos, used := filePos + n, used + n;
      currentOffset := currentOffset + n;
      eof := n == 0 < p.Length;
    }

    method ReadPlain(p: array<Byte>) returns (n: nat)
      requires Valid()
      modifies p
      ensures n == Available(filePos, p.Length) <= p.Length && (n > 0 ==> filePos + n <= |file|)
      ensures forall k :: 0 <= k < n ==> p[k] == PlainAt(file, block, iv, Position() + k)
      ensures forall k :: n <= k < p.Length ==> p[k] == old(p[k])
    {
      n := FileRead(p);
      ghost var cipherText := p[..];
      XorKeyStream(p, n);
      forall k | 0 <= k < n ensures p[k] == PlainAt(file, block, iv, Position() + k) {
        assert p[k] == Xor(cipherText[k], Pad(block, ctr, used + k));
        StreamByte(block, iv, startBlock, used, filePos - 16, k);
      }
    }

    /** `os.File.Read` on a regular file. */
    method FileRead(p: array<Byte>) returns (n: nat)
      modifies p
      ensures n == Available(filePos, p.Length) <= p.Length && (n > 0 ==> filePos + n <= |file|)
      ensures forall k :: 0 <= k < n ==> p[k] == file[filePos + k]
      ensures forall k :: n <= k < p.Length ==> p[k] == old(p[k])
    {
      n := Available(filePos, p.Length);
      var i := 0;
      while i < n
        invariant i <= n
        invariant forall k :: 0 <= k < i ==> p[k] == file[filePos + k]
        invariant forall k :: i <= k < p.Length ==> p[k] == old(p[k])
      {
        p[i] := file[filePos + i];
        i := i + 1;
      }
    }

    /** Combine the first `n` bytes with the next `n` of the key stream. */
    method XorKeyStream(p: array<Byte>, n: nat)
      requires n <= p.Length
      modifies p
      ensures forall k :: 0 <= k < n ==> p[k] == Xor(old(p[k]), Pad(block, ctr, used + k))
      ensures forall k :: n <= k < p.Length ==> p[k] == old(p[k])
    {
      var i := 0;
      while i < n
        invariant i <= n
        invariant forall k :: 0 <= k < i ==> p[k] == Xor(old(p[k]), Pad(block, ctr, used + k))
        invariant forall k :: i <= k < p.Length ==> p[k] == old(p[k])
      {
        p[i] := Xor(p[i], Pad(block, ctr, used + i));
        i := i + 1;
      }
    }

    /** Where a seek is to go. */
    function Target(offset: int, whence: int): int
      requires Int64(offset) && Int64(currentOffset) && ContentSize() < TWO63
      reads this
    {
      if whence == SEEK_START then offset
      else if whence == SEEK_CURRENT then Wrap(currentOffset + offset)
      else Wrap(ContentSize() + offset)
    }

    /** Within the content, or on a block boundary, a seek from the start or the
        end arrives exactly there; whatever it answers, file and key stream stay
        in step. The recorded offset then runs ahead by the offset in the block. */
    method Seek(offset: int, whence: int) returns (r: SeekResult)
      requires Valid() && Int64(offset) && Int64(currentOffset)
      modifies this
      ensures Valid()
      ensures whence !in {SEEK_START, SEEK_CURRENT, SEEK_END} <==> r == InvalidWhence
      ensures !r.InvalidWhence? ==> (old(Target(offset, whence)) < 0 <==> r == NegativeOffset)
      ensures !r.InvalidWhence? ==> (old(Target(offset, whence)) >= TWO63 - 16 <==> r == BadFileOffset)
      ensures r.InvalidWhence? || r.NegativeOffset? || r.BadFileOffset? ==>
                filePos == old(filePos) && ctr == old(ctr) && used == old(used) && currentOffset == old(currentOffset)
      ensures r.At? ==> r.target == old(Target(offset, whence)) == Position()
      ensures r.At? && whence == 0 ==> r.target == offset
      ensures r.At? && whence == 1 ==> r.target == old(currentOffset) + offset
      ensures r.At? && whence == 2 ==> r.target == (if |file| < 16 then 0 else |file| - 16) + offset
      ensures r.At? || r.UnexpectedEof? ==>
                var t := old(Target(offset, whence));
                && (r.At? <==> t % 16 == 0 || t <= ContentSize())
                && Skew() == t % 16
    {
      var target: int;
      if whence == SEEK_START {
        target := offset;
      } else if whence == SEEK_CURRENT {
        target := Wrap(currentOffset + offset);
      } else if whence == SEEK_END {
        target := Wrap(ContentSize() + offset);
      } else {
        return InvalidWhence;
      }
      if target < 0 {
        return NegativeOffset;
      }
      r := MoveTo(target);
    }

    method MoveTo(target: nat) returns (r: SeekResult)
      requires Valid() && target < TWO63
      modifies this
      ensures Valid()
      ensures r.BadFileOffset? || r.UnexpectedEof? || r == At(target)
      ensures r.BadFileOffset? <==> target >= TWO63 - 16
      ensures r.BadFileOffset?
              ==> filePos == old(filePos) && ctr == old(ctr) && used == old(used) && currentOffset == old(currentOffset)
      ensures !r.BadFileOffset? ==> (r.At? <==> target % 16 == 0 || target <= ContentSize()) && Skew() == target % 16
      ensures r.At? ==> Position() == target
    {
      var blockIndex, remainder := target / 16, target % 16;
      var counter := CounterAt(blockIndex);
      if 16 + blockIndex * 16 >= TWO63 {
        return BadFileOffset;
      }
      filePos := 16 + blockIndex * 16;
      ctr, used, startBlock := counter, 0, blockIndex;
      currentOffset := target;
      if remainder > 0 {
        var n := Discard(remainder);
        if n < remainder {
          return UnexpectedEof;
        }
      }
      return At(target);
    }

    /** A copy of the IV, moved on by a number of blocks: below 2^59 blocks the
        first step of `addCtr` cannot overflow. */
    method CounterAt(blockIndex: nat) returns (counter: Key)
      requires |iv| == 16 && blockIndex < TWO63 / 16
      ensures counter == Plus(iv, blockIndex)
    {
      var source := iv;
      var c := new Byte[|source|](i requires 0 <= i < |source| => source[i]);
      assert c[..] == iv;
      AddCtr(c, blockIndex);
      AddToIsSum(iv, blockIndex);
      counter := c[..];
    }

    method Discard(remainder: nat) returns (n: nat)
      requires Valid()
      modifies this
      ensures Valid() && n == Available(old(filePos), remainder)
      ensures Position() == old(Position()) + n && Skew() == old(Skew())
    {
      var buffer := new Byte[remainder];
      var eof;
      n, eof := Read(buffer);
    }
  }

  /** Seek, read, seek again relative to the current position: the second seek
      arrives `o` behind where the reader stood if and only if the first one went to
      a block boundary. */
  method CurrentIsRelative(r: Reader, offset: int, whence: int, p: array<Byte>, o: int)
      returns (a: SeekResult, n: nat, b: SeekResult)
    requires r.Valid() && Int64(offset) && Int64(r.currentOffset) && Int64(o)
    modifies r, p
    ensures r.Valid()
    ensures a.At? && b.At? ==> (b.target == a.target + n + o <==> a.target % 16 == 0)
    ensures a.At? && b.At? ==> b.target == r.Position() == a.target + a.target % 16 + n + o
  {
    a := r.Seek(offset, whence);
    n, b := 0, a;
    if a.At? {
      var eof;
      n, eof := r.Read(p);
      b := r.Seek(o, SEEK_CURRENT);
    }
  }

  /** Seeking to 5 and then by 0 arrives at 10. */
  method StayingMoves(block: Key -> Key, iv: Key) returns (a: SeekResult, b: SeekResult)
    requires |iv| == 16
    ensures a == At(5) && b == At(10)
  {
    var r := new Reader(iv + iv, block, iv);
    a := r.Seek(5, SEEK_START);
    b := r.Seek(0, SEEK_CURRENT);
  }

  /** Seeking to the end arrives behind the last byte, from where nothing is left. */
  method EndIsLength(r: Reader, p: array<Byte>) returns (a: SeekResult, n: nat)
    requires r.Valid() && Int64(r.currentOffset) && 16 <= |r.file| < TWO63 - 16
    modifies r, p
    ensures a == At(|r.file| - 16) && n == 0
  {
    a := r.Seek(0, SEEK_END);
    var eof;
    n, eof := r.Read(p);
  }

  /** An IV and 5 bytes: the end is at 5, and one byte before it is at 4. */
  method EndOfFive(block: Key -> Key, iv: Key, content: Key) returns (a: SeekResult, b: SeekResult)
    requires |iv| == 16 && |content| == 5
    ensures a == At(5) && b == At(4)
  {
    var r := new Reader(iv + content, block, iv);
    a := r.Seek(0, SEEK_END);
    b := r.Seek(-1, SEEK_END);
  }

  /** A plain byte is the stored byte combined with the cipher's output for the counter
      of its block: 16 bytes that spell the IV's number plus the number of whole blocks
      before it, modulo 256 to the 16. */
  lemma {:induction false} PlainMeans(file: Key, block: Key -> Key, iv: Key, q: nat, counter: Key)
    requires 16 + q < |file| && |iv| == 16 && |counter| == |iv| && |block(counter)| == 16
    requires Value(counter) == (Value(iv) + q / 16) % Pow256(|iv|)
    ensures PlainAt(file, block, iv, q) == Xor(file[16 + q], block(counter)[q % 16])
  {
    var n := q / 16;
    CounterOfBlock(iv, n, counter);
  }

  lemma {:induction false} CounterOfBlock(iv: Key, n: nat, counter: Key)
    requires |counter| == |iv| && Value(counter) == (Value(iv) + n) % Pow256(|iv|)
    ensures counter == Plus(iv, n)
  {
    DigitsSpell(|iv|, Value(iv) + n);
    ValueDetermines(counter, Plus(iv, n));
  }
}
