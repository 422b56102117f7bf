/** The linked message list behind the blocking queue, with the length that the queue's waits depend on. */
module MsgQueue {
  class Msg {
    const kind: int
    const data: nat
    var next: Msg?

    constructor (kind: int, data: nat)
      ensures this.kind == kind && this.data == data && next == null
    {
      this.kind, this.data, next := kind, data, null;
    }
  }

  ghost function Items(chain: seq<Msg>): (r: seq<(int, nat)>)
    ensures |r| == |chain| && forall i :: 0 <= i < |chain| ==> r[i] == (chain[i].kind, chain[i].data)
  {
    if chain == [] then [] else [(chain[0].kind, chain[0].data)] + Items(chain[1..])
  }

  class Queue {
    var que: Msg?
    var queEnd: Msg?
    var len: nat
    const lenMax: nat
    ghost var chain: seq<Msg>  // from the head on

    /** The counter is the length of the chain that starts at the head and ends at the end pointer. */
    ghost predicate Valid()
      reads this, chain
    {
      && len == |chain| <= lenMax
      && (chain == [] ==> que == null && queEnd == null)
      && (chain != [] ==> que == chain[0] && queEnd == chain[|chain| - 1] && queEnd.next == null)
      && (forall i :: 0 <= i < |chain| - 1 ==> chain[i].next == chain[i + 1])
      && (forall i, j :: 0 <= i < j < |chain| ==> chain[i] != chain[j])
    }

    ghost function Contents(): seq<(int, nat)>
      reads this
    {
      Items(chain)
    }

    constructor (lenMax: nat)
      ensures Valid() && Contents() == [] && this.lenMax == lenMax
    {
      que, queEnd, len, this.lenMax, chain := null, null, 0, lenMax, [];
    }

    /** The part of msg_que_put_with_type that changes the queue: false when it is full and the caller has to wait. */
    method Enqueue(kind: int, data: nat) returns (ok: bool)
      requires Valid()
      modifies this, chain
      ensures Valid() && ok == (|old(Contents())| < lenMax)
      ensures Contents() == if ok then old(Contents()) + [(kind, data)] else old(Contents())
      ensures ok ==> fresh(chain[|chain| - 1]) && chain[..|chain| - 1] == old(chain)
    {
      ok := len < lenMax;
      if ok {
        var msg := new Msg(kind, data);
        if que == null {
          que := msg;
        } else {
          queEnd.next := msg;
        }
        queEnd := msg;
        len := len + 1;
        chain := chain + [msg];
      }
    }

    /** The part of msg_que_get_with_type that changes the queue: false when it is empty and the caller has to wait. */
    method Dequeue() returns (ok: bool, kind: int, data: nat)
      requires Valid()
      modifies this
      ensures Valid() && ok == (old(Contents()) != [])
      ensures ok ==> old(Contents()) == [(kind, data)] + Contents()
      ensures !ok ==> Contents() == []
    {
      ok, kind, data := false, 0, 0;
      if len > 0 {
        var msg := que;
        que := msg.next;
        if que == null {
          queEnd := null;
        }
        len := len - 1;
        ok, kind, data := true, msg.kind, msg.data;
        chain := chain[1..];
      }
    }

    /** msg_que_flush */
    method Flush()
      requires Valid()
      modifies this
      ensures Valid() && Contents() == []
    {
      var msg := que;
      ghost var i := 0;
      while msg != null
        invariant 0 <= i <= |chain| && chain == old(chain) && Valid()
        invariant i < |chain| ==> msg == chain[i]
        invariant i == |chain| ==> msg == null
        decreases |chain| - i
      {
        var tmp := msg.next;
        msg := tmp;
        i := i + 1;
      }
      que, queEnd, len, chain := null, null, 0, [];
    }
  }
}
