/** The growable byte buffer. */
module ByteBuffer {
  import opened Bytes

  const INITIAL_CAPACITY := 1024

  // ---------------------------------------------------------------------------- abstraction

  /** The bytes stored and the room allocated for them. */
  datatype View = View(contents: seq<Octet>, capacity: nat)

  /** Capacity after appending len bytes to size bytes. */
  function CapacityAfter(capacity: nat, size: nat, len: nat): nat {
    if size + len < capacity then capacity
    else if len < capacity * 2 then capacity * 2
    else capacity + len + 1
  }

  /** What an append asks for: it does not fall between one doubling and the additive growth. */
  predicate GrowthFits(capacity: nat, size: nat, len: nat) {
    size + len < 2 * capacity || len >= 2 * capacity
  }

  /** The condition is exact: without it the bytes and their zero do not fit the grown block. */
  lemma GrowthFitsIff(capacity: nat, size: nat, len: nat)
    requires size < capacity
    ensures size + len < CapacityAfter(capacity, size, len) <==> GrowthFits(capacity, size, len)
  {
  }

  /** 1100 bytes appended to 1000 in a block of 1024: the block grows to 2048. */
  lemma DoublingFallsShort()
    ensures CapacityAfter(1024, 1000, 1100) == 2048 < 1000 + 1100 && !GrowthFits(1024, 1000, 1100)
  {
  }

  /** An append no longer than the block, or to an empty buffer, always fits. */
  lemma ModestGrowthFits(capacity: nat, size: nat, len: nat)
    requires size < capacity && (len <= capacity || size == 0)
    ensures GrowthFits(capacity, size, len) && capacity <= CapacityAfter(capacity, size, len)
  {
  }

  datatype Op = Append(bytes: seq<Octet>) | Remove(index: int, len: int) | Clear

  predicate Fits(v: View, op: Op) {
    op.Append? ==> GrowthFits(v.capacity, |v.contents|, |op.bytes|)
  }

  /** What is stored and allocated afterwards, were there no limit to the block. */
  function Apply(v: View, op: Op): View {
    match op
    case Append(bytes) => View(v.contents + bytes, CapacityAfter(v.capacity, |v.contents|, |bytes|))
    case Remove(index, len) =>
      if len < 0 || index < 0 || |v.contents| - index < len then v
      else
        var rest := v.contents[..index] + v.contents[index + len..];
        View(rest, if v.capacity / 4 > |rest| then v.capacity / 2 else v.capacity)
    case Clear => View([], v.capacity)
  }

  function Run(v: View, ops: seq<Op>): View {
    if ops == [] then v else Apply(Run(v, ops[..|ops| - 1]), ops[|ops| - 1])
  }

  /** Every append of a run meets the growth condition at the capacity its history left. */
  predicate RunFits(v: View, ops: seq<Op>) {
    ops == [] || (RunFits(v, ops[..|ops| - 1]) && Fits(Run(v, ops[..|ops| - 1]), ops[|ops| - 1]))
  }

  predicate HasRoom(v: View) {
    |v.contents| < v.capacity
  }

  /** After every operation of the run the bytes and their zero lie within the block. */
  predicate StaysInBlock(v: View, ops: seq<Op>) {
    HasRoom(Run(v, ops)) && (ops == [] || StaysInBlock(v, ops[..|ops| - 1]))
  }

  lemma OpKeepsRoomIff(v: View, op: Op)
    requires HasRoom(v)
    ensures HasRoom(Apply(v, op)) <==> Fits(v, op)
  {
    if op.Append? {
      GrowthFitsIff(v.capacity, |v.contents|, |op.bytes|);
    }
  }

  /** A run stays within its blocks, through every growth and shrinking, if and only if every append fits. */
  lemma {:induction false} RunStaysInBlockIff(v: View, ops: seq<Op>)
    requires HasRoom(v)
    ensures StaysInBlock(v, ops) <==> RunFits(v, ops)
  {
    hide HasRoom, Fits, Apply;
    if ops != [] {
      var prior := ops[..|ops| - 1];
      RunStaysInBlockIff(v, prior);
      if RunFits(v, prior) {
        OpKeepsRoomIff(Run(v, prior), ops[|ops| - 1]);
      }
    }
  }

  predicate AllAppends(ops: seq<Op>) {
    forall op | op in ops :: op.Append?
  }

  /** What a run of appends adds. */
  function Appended(ops: seq<Op>): seq<Octet>
    requires AllAppends(ops)
  {
    if ops == [] then [] else Appended(ops[..|ops| - 1]) + ops[|ops| - 1].bytes
  }

  /** Appends that stay below twice the capacity in all fit one after the other. */
  lemma {:induction false} ShortAppendsFit(v: View, ops: seq<Op>)
    requires HasRoom(v) && AllAppends(ops) && |v.contents| + |Appended(ops)| < 2 * v.capacity
    ensures RunFits(v, ops) && Run(v, ops).contents == v.contents + Appended(ops) && Run(v, ops).capacity >= v.capacity
  {
    if ops != [] {
      ShortAppendsFit(v, ops[..|ops| - 1]);
    }
  }

  /** The bytes before the first zero. */
  function UpToZero(s: seq<Octet>): (r: seq<Octet>)
    ensures r <= s && 0 !in r
  {
    if s == [] || s[0] == 0 then [] else [s[0]] + UpToZero(s[1..])
  }

  lemma {:induction false} FirstZero(s: seq<Octet>, n: nat)
    requires n < |s| && s[n] == 0 && forall j | 0 <= j < n :: s[j] != 0
    ensures UpToZero(s) == s[..n]
  {
    if n > 0 {
      FirstZero(s[1..], n - 1);
      assert [s[0]] + s[1..][..n - 1] == s[..n];
    }
  }

  /** now is was after the first k bytes behind the gap were copied down over it. */
  ghost predicate Closed(was: seq<Octet>, now: seq<Octet>, index: nat, len: nat, k: nat) {
    && |now| == |was| && index + len + k <= |was|
    && (forall x | 0 <= x < index :: now[x] == was[x])
    && (forall x | index <= x < index + k :: now[x] == was[x + len])
    && (forall x | index + k <= x < |was| :: now[x] == was[x])
  }

  lemma NothingClosed(was: seq<Octet>, index: nat, len: nat)
    requires index + len <= |was|
    ensures Closed(was, was, index, len, 0)
  {
  }

  lemma CloseOneMore(was: seq<Octet>, now: seq<Octet>, index: nat, len: nat, k: nat)
    requires Closed(was, now, index, len, k) && index + len + k < |was|
    ensures |now| == |was| && Closed(was, now[index + k := now[index + len + k]], index, len, k + 1)
  {
  }

  lemma ClosedGap(was: seq<Octet>, now: seq<Octet>, index: nat, len: nat, size: nat)
    requires index + len <= size <= |was| && Closed(was, now, index, len, size - index - len)
    ensures now[..size - len] == was[..index] + was[index + len..size]
    ensures forall x | size <= x < |was| :: now[x] == was[x]
  {
  }

  lemma SliceOfPrefix(block: seq<Octet>, size: nat, index: nat, len: nat)
    requires index + len <= size <= |block|
    ensures block[..size][index..index + len] == block[index..index + len]
  {
  }

  // --------------------------------------------------------------------------------- class

  class ByteArray {
    var pData: array<Octet>
    var capacity: nat
    var dataSize: nat

    ghost predicate Valid()
      reads this, pData
    {
      capacity == pData.Length && dataSize < capacity && HasZeroFrom(dataSize)
    }

    /** A zero stands somewhere in the block from an index on. */
    ghost predicate HasZeroFrom(index: nat)
      reads this, pData
    {
      exists z :: index <= z < pData.Length && pData[z] == 0
    }

    ghost function Contents(): (s: seq<Octet>)
      requires Valid()
      reads this, pData
      ensures |s| == dataSize
    {
      pData[..dataSize]
    }

    ghost function State(): View
      requires Valid()
      reads this, pData
    {
      View(Contents(), capacity)
    }

    constructor ()
      ensures Valid() && fresh(pData) && State() == View([], 1024)
    {
      pData := new Octet[INITIAL_CAPACITY](_ => 0);
      capacity, dataSize := INITIAL_CAPACITY, 0;
      new;
      assert pData[0] == 0;
    }

    /** memcpy of the stored bytes into a new, zeroed block. */
    method Reallocate(newCapacity: nat)
      requires capacity >= 0 && dataSize <= pData.Length && dataSize <= newCapacity
      modifies this`pData, this`capacity
      ensures fresh(pData) && pData.Length == capacity == newCapacity
      ensures pData[..dataSize] == old(pData[..dataSize])
      ensures forall k | dataSize <= k < newCapacity :: pData[k] == 0
    {
      var pTemp := pData;
      capacity := newCapacity;
      pData := new Octet[capacity](_ => 0);
      for k := 0 to dataSize
        invariant pData.Length == capacity == newCapacity && fresh(pData) && pTemp == old(pData)
        invariant pData[..k] == pTemp[..k] && pTemp[..] == old(pData[..])
        invariant forall x | dataSize <= x < newCapacity :: pData[x] == 0
      {
        pData[k] := pTemp[k];
      }
    }

    method Expand(addSize: nat)
      requires Valid()
      modifies this`pData, this`capacity
      ensures Valid() && fresh(pData) && Contents() == old(Contents())
      ensures capacity == if addSize < old(capacity) * 2 then old(capacity) * 2 else old(capacity) + addSize + 1
    {
      Reallocate(if addSize < capacity * 2 then capacity * 2 else capacity + addSize + 1);
      assert pData[dataSize] == 0;
    }

    /**
     append(const char *, int) and, for one byte, append(char). ok is false when the bytes and
     their zero do not fit the grown block: the program then writes past it, the model stops.
     */
    method Append(bytes: seq<Octet>) returns (ok: bool)
      requires Valid()
      modifies this, pData
      ensures Valid() && (pData == old(pData) || fresh(pData))
      ensures ok <==> Fits(old(State()), Op.Append(bytes))
      ensures ok ==> State() == Apply(old(State()), Op.Append(bytes)) && pData[dataSize] == 0
      ensures !ok ==> State() == View(old(Contents()), CapacityAfter(old(capacity), old(dataSize), |bytes|))
    {
      if dataSize + |bytes| >= capacity {
        Expand(|bytes|);
      }
      GrowthFitsIff(old(capacity), dataSize, |bytes|);
      if dataSize + |bytes| >= capacity {
        return false;
      }
      CopyIn(bytes);
      dataSize := dataSize + |bytes|;
      pData[dataSize] := 0;
      ok := true;
    }

    /** memcpy behind the stored bytes. */
    method CopyIn(bytes: seq<Octet>)
      requires dataSize + |bytes| < pData.Length
      modifies pData
      ensures pData[..dataSize + |bytes|] == old(pData[..dataSize]) + bytes
    {
      ghost var before := pData[..dataSize];
      for k := 0 to |bytes|
        invariant pData[..dataSize + k] == before + bytes[..k]
      {
        pData[dataSize + k] := bytes[k];
        assert pData[..dataSize + k + 1] == pData[..dataSize + k] + [bytes[k]];
      }
      assert bytes[..|bytes|] == bytes;
    }

    /** remove: bad arguments change nothing; a quarter-full buffer is halved. */
    method Remove(index: int, len: int)
      requires Valid()
      modifies this, pData
      ensures Valid() && (pData == old(pData) || fresh(pData))
      ensures State() == Apply(old(State()), Op.Remove(index, len))
    {
      if len < 0 || index < 0 || dataSize - index < len {
        return;
      }
      Cut(index, len);
      if capacity / 4 > dataSize {
        Shrink();
      }
    }

    /** Closes the gap; the zero behind the data stays where it was. */
    method Cut(index: nat, len: nat)
      requires Valid() && index + len <= dataSize
      modifies this`dataSize, pData
      ensures Valid() && Contents() == old(Contents()[..index] + Contents()[index + len..])
    {
      ghost var z :| dataSize <= z < pData.Length && pData[z] == 0;
      MoveDown(index, len, Contents());
      assert pData[z] == 0;
      dataSize := dataSize - len;
    }

    method Shrink()
      requires Valid() && capacity / 4 > dataSize
      modifies this`pData, this`capacity
      ensures Valid() && fresh(pData) && capacity == old(capacity) / 2 && Contents() == old(Contents())
    {
      Reallocate(capacity / 2);
      assert pData[dataSize] == 0;
    }

    /** memcpy of what follows index + len down to index, byte by byte upwards. */
    method MoveDown(index: nat, len: nat, ghost before: seq<Octet>)
      requires index + len <= dataSize <= pData.Length && before == pData[..dataSize]
      modifies pData
      ensures pData[..dataSize - len] == before[..index] + before[index + len..]
      ensures forall x | dataSize <= x < pData.Length :: pData[x] == old(pData[x])
    {
      hide Closed;
      ghost var was := pData[..];
      var moved := dataSize - index - len;
      NothingClosed(was, index, len);
      for k := 0 to moved
        invariant Closed(was, pData[..], index, len, k)
      {
        ghost var now := pData[..];
        pData[index + k] := pData[index + len + k];
        CloseOneMore(was, now, index, len, k);
        assert pData[..] == now[index + k := now[index + len + k]];
      }
      ClosedGap(was, pData[..], index, len, dataSize);
    }

    /**
     mid: a copy of len bytes from index, or of everything for a range that ends behind the
     data; the default length -1 takes the bytes up to the first zero.
     */
    method Mid(index: int, len: int) returns (bytes: seq<Octet>)
      requires Valid()
      requires index == dataSize + 1 && len == -1 ==> HasZeroFrom(index)
      ensures bytes == if index < 0 || dataSize - index < len then Contents()
                       else if len > 0 then Contents()[index..index + len]
                       else if len == -1 then UpToZero(pData[index..])
                       else []
    {
      if index < 0 || dataSize - index < len {
        bytes := pData[..dataSize];
      } else if len > 0 {
        SliceOfPrefix(pData[..], dataSize, index, len);
        bytes := pData[index..index + len];
      } else if len == -1 {
        assert HasZeroFrom(index);
        var n := StrLen(index);
        bytes := pData[index..index + n];
      } else {
        bytes := [];
      }
    }

    /** strlen from an index of the block. */
    method StrLen(index: nat) returns (n: nat)
      requires HasZeroFrom(index)
      ensures index + n < pData.Length && pData[index..index + n] == UpToZero(pData[index..])
    {
      ghost var z :| index <= z < pData.Length && pData[z] == 0;
      ghost var s := pData[index..];
      n := 0;
      while pData[index + n] != 0
        invariant index + n <= z && forall j | 0 <= j < n :: s[j] != 0
        decreases z - n
      {
        n := n + 1;
      }
      FirstZero(s, n);
    }

    method Clear()
      requires Valid()
      modifies this, pData
      ensures Valid() && pData == old(pData)
      ensures State() == Apply(old(State()), Op.Clear)
    {
      ghost var z :| dataSize <= z < pData.Length && pData[z] == 0;
      for k := 0 to dataSize
        modifies pData
        invariant pData[z] == 0
      {
        pData[k] := 0;
      }
      dataSize := 0;
    }
  }
}
