/** firmware/RingBuf.c: the receive buffer, used by one thread. RingBufInterrupts.dfy interleaves it with
    the receive interrupt. */
module RingBuf {
  const SIZE: nat := 256

  /** RingBufInc: masking with 255. */
  function Inc(x: nat): nat {
    (x + 1) % SIZE
  }

  /** The bytes from `read` up to `write`, going round. */
  function Between<T>(data: seq<T>, read: nat, write: nat): (s: seq<T>)
    requires |data| == SIZE && read < SIZE && write < SIZE
  {
    if read <= write then data[read..write] else data[read..] + data[..write]
  }

  lemma TakeFirst<T>(data: seq<T>, read: nat, write: nat)
    requires |data| == SIZE && read < SIZE && write < SIZE && read != write
    ensures var s := Between(data, read, write);
            s != [] && s[0] == data[read] && s[1..] == Between(data, Inc(read), write)
  {
    var s := Between(data, read, write);
    assert s[1..] == Between(data, Inc(read), write);
  }

  lemma PutLast<T>(data: seq<T>, read: nat, write: nat, x: T)
    requires |data| == SIZE && read < SIZE && write < SIZE && Inc(write) != read
    ensures Between(data[write := x], read, Inc(write)) == Between(data, read, write) + [x]
  {
  }

  class Buffer<T> {
    const data: array<T>
    var read: nat
    var write: nat
    var errorFull: bool
    // the bytes that were put and not yet got
    ghost var contents: seq<T>

    ghost predicate Valid()
      reads this, data
    {
      data.Length == SIZE && read < SIZE && write < SIZE && contents == Between(data[..], read, write)
    }

    constructor (initial: T)
      ensures Valid() && fresh(data) && contents == [] && !errorFull
    {
      data := new T[SIZE](_ => initial);
      read, write, errorFull := 0, 0, false;
      contents := [];
    }

    /** RingBuf_Init */
    method Init()
      requires Valid()
      modifies this
      ensures Valid() && contents == [] && !errorFull
    {
      read := 0;
      write := 0;
      errorFull := false;
      contents := [];
    }

    /** RingBuf_Get */
    method Get() returns (result: T)
      requires Valid() && contents != []
      modifies this`read, this`errorFull, this`contents
      ensures Valid() && [result] + contents == old(contents) && !errorFull
    {
      TakeFirst(data[..], read, write);
      result := data[read];
      read := Inc(read);
      errorFull := false;
      contents := contents[1..];
    }

    /** RingBuf_Put: a full buffer keeps its contents and reports the loss. */
    method Put(value: T)
      requires Valid()
      modifies this`write, this`errorFull, this`contents, data
      ensures Valid()
      ensures if |old(contents)| < SIZE - 1
              then contents == old(contents) + [value] && errorFull == old(errorFull)
              else contents == old(contents) && errorFull
    {
      var writeNext := Inc(write);
      if writeNext != read {
        PutLast(data[..], read, write, value);
        data[write] := value;
        assert data[..] == old(data[..])[write := value];
        write := writeNext;
        contents := contents + [value];
      } else {
        errorFull := true;
      }
    }

    /** RingBuf_HasError */
    method HasError() returns (error: bool)
      ensures error == errorFull
    {
      error := errorFull;
    }

    /** RingBuf_IsEmpty */
    method IsEmpty() returns (empty: bool)
      requires Valid()
      ensures empty <==> contents == []
    {
      empty := write == read;
    }
  }
}
