/** The buffer a query's constants are kept in, one after the other, and the constants as places in it. */
module ConstArena {
  import opened Bytes

  /** A place in the buffer. */
  datatype Const = Const(offset: nat, len: nat)

  class Log {
    var buf: array<Raw>
    var bufPos: nat

    constructor ()
      ensures Valid() && bufPos == 0 && fresh(buf)
    {
      buf := new Raw[0];
      bufPos := 0;
    }

    /** The buffer is always full: it is as long as what has been put into it. */
    ghost predicate Valid()
      reads this
    {
      bufPos == buf.Length
    }

    function Return(c: Const): seq<Raw>
      reads this, buf
      requires Within(c, buf[..])
    {
      buf[c.offset..c.offset + c.len]
    }

    /** Makes room for `len` bytes at the end, in a longer copy of the buffer if it has to. */
    method MemAlloc(len: nat, allocFails: bool) returns (ok: bool)
      modifies this
      ensures ok ==> bufPos == old(bufPos) + len && old(buf.Length) <= buf.Length && bufPos <= buf.Length
      ensures ok ==> buf.Length == if old(bufPos) + len > old(buf.Length) then old(bufPos) + len else old(buf.Length)
      ensures ok ==> buf[..old(buf.Length)] == old(buf[..])
      ensures ok ==> buf == old(buf) || fresh(buf)
      ensures !ok ==> allocFails && buf == old(buf) && bufPos == old(bufPos)
    {
      if bufPos + len > buf.Length {
        if allocFails {
          return false;
        }
        var newBuf := new Raw[bufPos + len];
        forall i | 0 <= i < buf.Length {
          newBuf[i] := buf[i];
        }
        buf := newBuf;
      }
      bufPos := bufPos + len;
      ok := true;
    }

    /** Puts a value into the buffer. */
    method Get(result: seq<Raw>, allocFails: bool) returns (ok: bool, con: Const)
      requires Valid()
      modifies this, buf
      ensures Valid() && (buf == old(buf) || fresh(buf))
      ensures ok ==> buf[..] == old(buf[..]) + result && Within(con, buf[..]) && Return(con) == result
      ensures !ok ==> allocFails && buf[..] == old(buf[..])
      ensures Keeps(old(buf[..]), buf[..])
    {
      con := Const(0, 0);
      Prefix(buf[..], []);
      ok := MemAlloc(|result|, allocFails);
      if !ok {
        return;
      }
      Copy(result, bufPos - |result|);
      con := Const(buf.Length - |result|, |result|);
      assert buf[..] == old(buf[..]) + result;
      Prefix(old(buf[..]), result);
    }

    /** Puts a copy of a constant into the buffer; the empty constant takes up no room. */
    method Duplicate(from: Const, allocFails: bool) returns (ok: bool, con: Const)
      requires Valid() && Within(from, buf[..])
      modifies this, buf
      ensures Valid() && (buf == old(buf) || fresh(buf))
      ensures ok && from.len > 0 ==>
                buf[..] == old(buf[..]) + old(Return(from)) && Within(con, buf[..]) && Return(con) == old(Return(from))
      ensures ok && from.len == 0 ==> con == Const(0, 0) && buf[..] == old(buf[..])
      ensures !ok ==> allocFails && buf[..] == old(buf[..])
      ensures Keeps(old(buf[..]), buf[..])
    {
      con := Const(0, 0);
      Prefix(buf[..], []);
      if from.len == 0 {
        return true, con;
      }
      ghost var value := Return(from);
      ok := MemAlloc(from.len, allocFails);
      if !ok {
        return;
      }
      Extended(old(buf[..]), buf[..]);
      assert Read(buf[..], from) == value;
      Copy(buf[from.offset..from.offset + from.len], bufPos - from.len);
      con := Const(buf.Length - from.len, from.len);
      assert buf[..] == old(buf[..]) + value;
      Prefix(old(buf[..]), value);
    }

    /** Writes bytes into the buffer in place. */
    method Copy(bytes: seq<Raw>, at: nat)
      requires at + |bytes| <= buf.Length
      modifies buf
      ensures buf[..] == old(buf[..at]) + bytes + old(buf[at + |bytes|..])
    {
      forall i | 0 <= i < |bytes| {
        buf[at + i] := bytes[i];
      }
    }
  }

  predicate Within(c: Const, bytes: seq<Raw>) {
    c.offset + c.len <= |bytes|
  }

  function Read(bytes: seq<Raw>, c: Const): seq<Raw>
    requires Within(c, bytes)
  {
    bytes[c.offset..c.offset + c.len]
  }

  /** Every constant that was in the buffer is there still and reads the same. */
  ghost predicate Keeps(was: seq<Raw>, now: seq<Raw>) {
    forall c :: Within(c, was) ==> Within(c, now) && Read(now, c) == Read(was, c)
  }

  lemma {:induction false} Prefix(was: seq<Raw>, more: seq<Raw>)
    ensures Keeps(was, was + more) && was + [] == was
  {
    assert (was + more)[..|was|] == was;
  }

  lemma {:induction false} Extended(was: seq<Raw>, now: seq<Raw>)
    requires |was| <= |now| && now[..|was|] == was
    ensures Keeps(was, now)
  {
    Prefix(was, now[|was|..]);
    assert was + now[|was|..] == now;
  }

  /** Any number of constants may be added: what was kept at each addition is kept by all of them. */
  lemma {:induction false} KeepsOn(states: seq<seq<Raw>>, i: nat, j: nat)
    requires i <= j < |states| && forall k :: 0 <= k < |states| - 1 ==> Keeps(states[k], states[k + 1])
    ensures Keeps(states[i], states[j])
  {
    if i < j {
      KeepsOn(states, i, j - 1);
      assert Keeps(states[j - 1], states[j - 1 + 1]);
    }
  }
}
