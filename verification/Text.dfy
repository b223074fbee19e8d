/** Writing characters through an output pointer: what a buffer holds after a string has
    been stored at a position. */
module Text {

  /** buffer with out stored from position at on. */
  function Written(buffer: string, at: nat, out: string): (r: string)
    requires at + |out| <= |buffer|
    ensures |r| == |buffer|
  {
    buffer[..at] + out + buffer[at + |out|..]
  }

  lemma WrittenTwice(buffer: string, at: nat, a: string, b: string)
    requires at + |a| + |b| <= |buffer|
    ensures Written(Written(buffer, at, a), at + |a|, b) == Written(buffer, at, a + b)
  {}

  lemma WrittenOne(buffer: string, at: nat, a: string, c: char)
    requires at + |a| < |buffer|
    ensures Written(buffer, at, a)[at + |a| := c] == Written(buffer, at, a + [c])
  {}

  lemma WrittenNothing(buffer: string, at: nat)
    requires at <= |buffer|
    ensures Written(buffer, at, "") == buffer
  {}

  /** count copies of c, none for a negative count. */
  function Repeat(c: char, count: int): (s: string)
    ensures |s| == if count > 0 then count else 0
    ensures forall i :: 0 <= i < |s| ==> s[i] == c
    decreases if count > 0 then count else 0
  {
    if count <= 0 then "" else Repeat(c, count - 1) + [c]
  }

  lemma RepeatOneMore(c: char, count: nat)
    ensures Repeat(c, count + 1) == Repeat(c, count) + [c]
  {}

  lemma RepeatNone(c: char, count: int)
    requires count <= 0
    ensures Repeat(c, count) == ""
  {}

  lemma {:induction false} RepeatHead(c: char, count: int)
    requires count > 0
    ensures Repeat(c, count) == [c] + Repeat(c, count - 1)
    decreases count
  {
    if count > 1 {
      RepeatHead(c, count - 1);
      assert Repeat(c, count) == ([c] + Repeat(c, count - 2)) + [c];
    }
  }

  /** while (count-- > 0) *str++ = c; the counter is left one below where it stopped. */
  method CountDown(buf: array<char>, at: nat, c: char, count: int) returns (next: nat, left: int)
    requires at + |Repeat(c, count)| <= buf.Length
    modifies buf
    ensures next == at + |Repeat(c, count)|
    ensures left == (if count > 0 then 0 else count) - 1
    ensures buf[..] == Written(old(buf[..]), at, Repeat(c, count))
  {
    hide Written, Repeat;
    next, left := at, count;
    RepeatNone(c, 0);
    if count < 0 { RepeatNone(c, count); }
    WrittenNothing(buf[..], at);
    while left > 0
      invariant left <= count && (count > 0 ==> left >= 0) && (count <= 0 ==> left == count)
      invariant next == at + |Repeat(c, count - left)|
      invariant buf[..] == Written(old(buf[..]), at, Repeat(c, count - left))
    {
      WrittenOne(old(buf[..]), at, Repeat(c, count - left), c);
      RepeatOneMore(c, count - left);
      buf[next] := c;
      next, left := next + 1, left - 1;
    }
    left := left - 1;
  }
}
