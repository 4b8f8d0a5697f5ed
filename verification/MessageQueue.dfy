/** The bounded queue of messages from interrupt handlers to the main loop. */
module MessageQueues {
  import opened Common

  datatype Message = Xhci | TimerTimeout(value: nat)

  lemma NextIndex(i: nat, n: nat)
    requires i < n
    ensures (i + 1) % n == if i + 1 == n then 0 else i + 1
  {
  }

  class MessageQueue {
    const data: array<Message>
    var readPos: nat
    var writePos: nat
    var cnt: nat

    /** The buffer index `k` places after `readPos`. */
    ghost function Place(k: nat): (p: nat)
      requires readPos < data.Length && k <= data.Length
      reads this
      ensures p < data.Length
    {
      if readPos + k < data.Length then readPos + k else readPos + k - data.Length
    }

    ghost predicate Valid()
      reads this
    {
      && cnt <= data.Length
      && (data.Length > 0 ==> readPos < data.Length && writePos == Place(cnt))
    }

    ghost function Contents(): (s: seq<Message>)
      requires Valid()
      reads this, data
      ensures |s| == cnt
    {
      seq(cnt, k requires 0 <= k < cnt && Valid() reads this, data => data[Place(k)])
    }

    constructor (n: nat)
      ensures Valid() && Contents() == [] && data.Length == n && fresh(data)
    {
      data := new Message[n](i => Xhci);
      readPos, writePos, cnt := 0, 0, 0;
    }

    /** A full queue refuses the message and stays as it was. */
    method Push(msg: Message) returns (ok: bool)
      requires Valid()
      modifies this`cnt, this`writePos, data
      ensures Valid()
      ensures ok <==> |old(Contents())| < data.Length
      ensures Contents() == if ok then old(Contents()) + [msg] else old(Contents())
    {
      if cnt == data.Length {
        return false;
      }
      NextIndex(writePos, data.Length);
      ghost var was := Contents();
      cnt := cnt + 1;
      data[writePos] := msg;
      writePos := (writePos + 1) % data.Length;
      ok := true;
      assert forall k :: 0 <= k < |was| ==> Contents()[k] == was[k];
    }

    method Pop() returns (msg: Option<Message>)
      requires Valid()
      modifies this`cnt, this`readPos
      ensures Valid()
      ensures old(Contents()) == [] ==> msg == None && Contents() == []
      ensures old(Contents()) != [] ==> msg == Some(old(Contents())[0]) && Contents() == old(Contents())[1..]
    {
      if cnt == 0 {
        return None;
      }
      NextIndex(readPos, data.Length);
      ghost var was := Contents();
      cnt := cnt - 1;
      msg := Some(data[readPos]);
      readPos := (readPos + 1) % data.Length;
      assert forall k :: 0 <= k < cnt ==> Contents()[k] == was[k + 1];
    }
  }
}
