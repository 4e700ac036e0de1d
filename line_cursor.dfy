/** `PushbackIterator`: a cursor over the input lines with a LIFO buffer of
    lines handed back by a block handler. `Next` serves the most recently
    pushed-back line before it advances over the underlying lines. */
module LineCursor {
  import opened Text

  class PushbackIterator {
    /** The underlying iterable, and how far `next(self.iterable)` has got. */
    const lines: seq<string>
    var pos: nat
    /** `self.buffer`, a stack of pushed-back lines, listed from its top
        (the most recently pushed line, which Python keeps last) down. */
    var buffer: seq<string>

    ghost predicate Valid()
      reads this
    {
      pos <= |lines|
    }

    /** Everything still to come, in the order `Next` will deliver it. */
    ghost function Remaining(): seq<string>
      reads this
      requires Valid()
    {
      buffer + lines[pos..]
    }

    constructor (lines: seq<string>)
      ensures Valid() && this.lines == lines && pos == 0 && buffer == []
      ensures Remaining() == lines
    {
      this.lines := lines;
      pos := 0;
      buffer := [];
    }

    /** `__next__`: pop the buffer if it holds anything, otherwise advance;
        `None` stands for `StopIteration`. */
    method Next() returns (r: Option<string>)
      requires Valid()
      modifies this
      ensures Valid()
      ensures old(buffer) != [] ==>
        r == Some(old(buffer)[0]) && buffer == old(buffer)[1..] && pos == old(pos)
      ensures old(buffer) == [] && old(pos) < |lines| ==>
        r == Some(lines[old(pos)]) && buffer == [] && pos == old(pos) + 1
      ensures old(buffer) == [] && old(pos) == |lines| ==>
        r == None && buffer == [] && pos == old(pos)
      ensures r.None? <==> old(Remaining()) == []
      ensures r.Some? ==> r.value == old(Remaining())[0] && Remaining() == old(Remaining())[1..]
      ensures r.None? ==> Remaining() == []
    {
      if buffer != [] {
        r := Some(buffer[0]);
        buffer := buffer[1..];
      } else if pos < |lines| {
        r := Some(lines[pos]);
        pos := pos + 1;
      } else {
        r := None;
      }
    }

    /** `pushback(value)`: the value is the next one `Next` returns. */
    method Pushback(value: string)
      requires Valid()
      modifies this
      ensures Valid()
      ensures buffer == [value] + old(buffer) && pos == old(pos)
      ensures Remaining() == [value] + old(Remaining())
    {
      buffer := [value] + buffer;
    }
  }

  /** Two pushbacks come back in reverse order, and then the cursor carries on
      where it was: no line is lost or duplicated. */
  method PushbackOrder(lines: seq<string>, a: string, b: string)
    returns (first: Option<string>, second: Option<string>, third: Option<string>)
    ensures first == Some(b) && second == Some(a)
    ensures third == (if lines == [] then None else Some(lines[0]))
  {
    var it := new PushbackIterator(lines);
    it.Pushback(a);
    it.Pushback(b);
    first := it.Next();
    second := it.Next();
    third := it.Next();
  }
}
