/** The ring buffer of a pipe in src/fs/vfs.c, with everything that went through it. */
module PipeRing {
  import opened Prelude

  const CAP: nat := 4096

  function After(i: nat): (j: nat)
    requires i < CAP
    ensures j < CAP
  {
    (i + 1) % CAP
  }

  /** The `n` bytes of a ring from `tail` on. */
  function Window(buf: seq<Octet>, tail: nat, n: nat): (w: seq<Octet>)
    requires |buf| == CAP && tail < CAP
    ensures |w| == n
    decreases n
  {
    if n == 0 then [] else [buf[tail]] + Window(buf, After(tail), n - 1)
  }

  /** Writing just past a window that is not full adds to its end. */
  lemma {:induction false} WindowGrows(buf: seq<Octet>, tail: nat, n: nat, x: Octet)
    requires |buf| == CAP && tail < CAP && n < CAP
    ensures (tail + n) % CAP < CAP
    ensures Window(buf[(tail + n) % CAP := x], tail, n + 1) == Window(buf, tail, n) + [x]
    decreases n
  {
    var head := (tail + n) % CAP;
    var b := buf[head := x];
    if n == 0 {
      assert Window(b, After(tail), 0) == [];
    } else {
      assert head != tail;
      assert (After(tail) + (n - 1)) % CAP == head;
      WindowGrows(buf, After(tail), n - 1, x);
      assert Window(b, tail, n + 1) == [buf[tail]] + (Window(buf, After(tail), n - 1) + [x]);
    }
  }

  /** A ring, with everything ever accepted and handed out since it was set up. */
  class Ring {
    var buf: array<Octet>
    var head: nat
    var tail: nat
    var count: nat
    ghost var accepted: seq<Octet>
    ghost var delivered: seq<Octet>

    ghost predicate Valid()
      reads this, buf
    {
      && buf.Length == CAP && head < CAP && tail < CAP && count <= CAP
      && head == (tail + count) % CAP
      && accepted == delivered + Contents()
    }

    ghost function Contents(): seq<Octet>
      reads this, buf
      requires buf.Length == CAP && tail < CAP
    {
      Window(buf[..], tail, count)
    }

    constructor ()
      ensures Valid() && fresh(buf) && accepted == [] && delivered == [] && count == 0
    {
      buf := new Octet[CAP](_ => 0);
      head, tail, count := 0, 0, 0;
      accepted, delivered := [], [];
    }

    /** A new pipe starts empty. */
    method Reset()
      requires Valid()
      modifies this`head, this`tail, this`count, this`accepted, this`delivered
      ensures Valid() && accepted == [] && delivered == [] && count == 0
    {
      head, tail, count := 0, 0, 0;
      accepted, delivered := [], [];
    }

    method TakeByte() returns (x: Octet)
      requires Valid() && count > 0
      modifies this`tail, this`count, this`delivered
      ensures Valid() && count == old(count) - 1 && delivered == old(delivered) + [x]
      ensures old(Contents()) == [x] + Contents()
    {
      x := buf[tail];
      ghost var rest := Window(buf[..], After(tail), count - 1);
      assert Contents() == [x] + rest;
      HeadStays(tail, count);
      tail := (tail + 1) % CAP;
      count := count - 1;
      delivered := delivered + [x];
      assert Contents() == rest;
      Regroup(old(delivered), x, rest);
    }

    /** Hands out up to `len` bytes, oldest first. */
    method Take(len: nat) returns (out: seq<Octet>)
      requires Valid()
      modifies this`tail, this`count, this`delivered
      ensures Valid() && delivered == old(delivered) + out
      ensures old(Contents()) == out + Contents()
      ensures |out| == if len < old(count) then len else old(count)
    {
      hide Window;
      out := [];
      while |out| < len && count > 0
        invariant Valid() && delivered == old(delivered) + out
        invariant old(Contents()) == out + Contents() && |out| <= len && |out| + count == old(count)
        decreases count
      {
        ghost var before := out;
        var x := TakeByte();
        out := out + [x];
        Regroup(before, x, Contents());
        Regroup(old(delivered), x, before);
      }
    }

    method PutByte(x: Octet)
      requires Valid() && count < CAP
      modifies this`head, this`count, this`accepted, buf
      ensures Valid() && count == old(count) + 1 && accepted == old(accepted) + [x]
      ensures Contents() == old(Contents()) + [x]
    {
      WindowGrows(buf[..], tail, count, x);
      HeadMoves(tail, count);
      ghost var b := buf[..];
      buf[head] := x;
      assert buf[..] == b[head := x];
      head := (head + 1) % CAP;
      count := count + 1;
      accepted := accepted + [x];
      assert delivered + old(Contents()) + [x] == delivered + Contents();
    }

    /** Accepts as much of `s` as there is room for. */
    method Put(s: seq<Octet>) returns (n: nat)
      requires Valid()
      modifies this`head, this`count, this`accepted, buf
      ensures Valid() && n <= |s| && n == (if |s| < CAP - old(count) then |s| else CAP - old(count))
      ensures Contents() == old(Contents()) + s[..n] && accepted == old(accepted) + s[..n]
    {
      hide Window;
      n := 0;
      while n < |s| && count < CAP
        invariant Valid() && n <= |s| && count == old(count) + n
        invariant Contents() == old(Contents()) + s[..n] && accepted == old(accepted) + s[..n]
      {
        PutByte(s[n]);
        assert s[..n + 1] == s[..n] + [s[n]];
        n := n + 1;
      }
    }
  }

  lemma HeadStays(tail: nat, n: nat)
    requires tail < CAP && 0 < n <= CAP
    ensures ((tail + 1) % CAP + (n - 1)) % CAP == (tail + n) % CAP
  {
  }

  lemma HeadMoves(tail: nat, n: nat)
    requires tail < CAP && n < CAP
    ensures ((tail + n) % CAP + 1) % CAP == (tail + (n + 1)) % CAP
  {
  }

  lemma Regroup(a: seq<Octet>, x: Octet, b: seq<Octet>)
    ensures a + ([x] + b) == (a + [x]) + b
    ensures a + (b + [x]) == (a + b) + [x]
  {
  }
}
