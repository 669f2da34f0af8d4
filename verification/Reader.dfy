/** The cursor of the `untrusted` crate: an immutable input and a position in it. */
module Readers {
  import opened Basics

  class Reader {
    const input: Bytes
    var pos: nat

    ghost predicate Valid()
      reads this
    {
      pos <= |input|
    }

    /** What the reader has not consumed yet. */
    ghost function Rest(): Bytes
      requires Valid()
      reads this
    {
      input[pos..]
    }

    constructor (input: Bytes)
      ensures Valid() && this.input == input && pos == 0
    {
      this.input := input;
      pos := 0;
    }

    predicate AtEnd()
      requires Valid()
      reads this
    {
      pos == |input|
    }

    predicate Peek(expected: Byte)
      requires Valid()
      reads this
    {
      pos < |input| && input[pos] == expected
    }

    /** `None` stands for `EndOfInput`; the reader then stays where it is. */
    method ReadByte() returns (r: Option<Byte>)
      requires Valid()
      modifies this
      ensures Valid()
      ensures old(pos) < |input| ==> r == Some(input[old(pos)]) && pos == old(pos) + 1
      ensures old(pos) == |input| ==> r == None && pos == old(pos)
    {
      if pos < |input| {
        r := Some(input[pos]);
        pos := pos + 1;
      } else {
        r := None;
      }
    }

    method ReadBytes(count: nat) returns (r: Option<Bytes>)
      requires Valid()
      modifies this
      ensures Valid()
      ensures old(pos) + count <= |input| ==>
                r == Some(input[old(pos)..old(pos) + count]) && pos == old(pos) + count
      ensures old(pos) + count > |input| ==> r == None && pos == old(pos)
    {
      if pos + count <= |input| {
        r := Some(input[pos..pos + count]);
        pos := pos + count;
      } else {
        r := None;
      }
    }

    method Skip(count: nat) returns (ok: bool)
      requires Valid()
      modifies this
      ensures Valid()
      ensures ok == (old(pos) + count <= |input|)
      ensures pos == if ok then old(pos) + count else old(pos)
    {
      ok := pos + count <= |input|;
      if ok {
        pos := pos + count;
      }
    }

    method SkipToEnd()
      requires Valid()
      modifies this
      ensures Valid() && pos == |input|
    {
      pos := |input|;
    }
  }
}
