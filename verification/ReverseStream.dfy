/** The control messages that one reverse streaming call sends over its life. */
module ReverseStream {
  import opened Text

  datatype Control = Credit(callId: nat, bytes: nat) | Cancel(callId: nat)

  datatype Error = ResponseInvalid | CallNotActive | ConnectionUnavailable | Remote(code: string)

  /** What arrives on the item channel: it may have ended, or bring an error or a payload. */
  datatype Item = Ended | Failed(error: Error) | Payload(bytes: seq<bv8>)

  /** What a call of `receive` gives: nothing more, an error, or a message. */
  datatype Received<M> = NoMore | Refused(error: Error) | Message(message: M)

  /** What happens to a stream, and whether the control channel still has its receiver then. */
  datatype Input = Receive(item: Item, open: bool) | CancelCall(open: bool)

  type Decoder<!M> = seq<bv8> -> Option<M>

  // ---- Specification over the life of a stream ----

  /** Whether an input ends the call: the end, an error, a payload that does not decode, a cancel. */
  predicate Ends<M>(input: Input, decode: Decoder<M>) {
    input.CancelCall? || !input.item.Payload? || decode(input.item.bytes).None?
  }

  /** Whether an input that ends the call has to tell the other side. */
  predicate Cancels<M>(input: Input, decode: Decoder<M>) {
    input.open && (input.CancelCall? || (input.item.Payload? && decode(input.item.bytes).None?))
  }

  function CreditFor(id: nat, input: Input): seq<Control> {
    if input.open && input.Receive? && input.item.Payload? then [Credit(id, |input.item.bytes|)] else []
  }

  /** The messages that a stream sends: for each payload before the end of the call a credit of its
      size, as long as there is someone to send it to, and then perhaps one cancel. */
  function Sent<M>(id: nat, inputs: seq<Input>, decode: Decoder<M>): seq<Control> {
    if inputs == [] then []
    else if Ends(inputs[0], decode) then (if Cancels(inputs[0], decode) then [Cancel(id)] else [])
    else CreditFor(id, inputs[0]) + Sent(id, inputs[1..], decode)
  }

  /** Whether some input has ended the call. */
  predicate HasEnded<M>(inputs: seq<Input>, decode: Decoder<M>) {
    exists i :: 0 <= i < |inputs| && Ends(inputs[i], decode)
  }

  /** What the caller is given for an item, depending on what came before. */
  function Answer<M>(inputs: seq<Input>, item: Item, open: bool, decode: Decoder<M>): Received<M> {
    match item
    case Ended => NoMore
    case Failed(error) => Refused(error)
    case Payload(bytes) =>
      match decode(bytes)
      case None => Refused(ResponseInvalid)
      case Some(message) =>
        if HasEnded(inputs, decode) then Refused(CallNotActive)
        else if !open then Refused(ConnectionUnavailable)
        else Message(message)
  }

  lemma {:induction false} SentAfter<M>(id: nat, inputs: seq<Input>, input: Input, decode: Decoder<M>)
    ensures Sent(id, inputs + [input], decode)
         == Sent(id, inputs, decode) + if HasEnded(inputs, decode) then [] else Sent(id, [input], decode)
    decreases inputs
  {
    if inputs == [] {
      assert inputs + [input] == [input] && [] + Sent(id, [input], decode) == Sent(id, [input], decode);
    } else {
      assert (inputs + [input])[0] == inputs[0] && (inputs + [input])[1..] == inputs[1..] + [input];
      EndedTail(inputs, decode);
      SentAfter(id, inputs[1..], input, decode);
      hide HasEnded, Ends, Cancels;
      var last := if HasEnded(inputs, decode) then [] else Sent(id, [input], decode);
      Joined(CreditFor(id, inputs[0]), Sent(id, inputs[1..], decode), last);
    }
  }

  lemma Joined(a: seq<Control>, b: seq<Control>, c: seq<Control>)
    ensures a + (b + c) == a + b + c && a + [] == a
  {
  }

  lemma EndedTail<M>(inputs: seq<Input>, decode: Decoder<M>)
    requires inputs != []
    ensures HasEnded(inputs, decode) <==> Ends(inputs[0], decode) || HasEnded(inputs[1..], decode)
  {
    if i :| 0 <= i < |inputs[1..]| && Ends(inputs[1..][i], decode) {
      assert Ends(inputs[i + 1], decode);
    }
    if i :| 0 < i < |inputs| && Ends(inputs[i], decode) {
      assert Ends(inputs[1..][i - 1], decode);
    }
  }

  lemma EndedAfter<M>(inputs: seq<Input>, input: Input, decode: Decoder<M>)
    ensures HasEnded(inputs + [input], decode) <==> HasEnded(inputs, decode) || Ends(input, decode)
  {
    var all := inputs + [input];
    if i :| 0 <= i < |inputs| && Ends(inputs[i], decode) {
      assert Ends(all[i], decode);
    }
    assert all[|inputs|] == input;
    if i :| 0 <= i < |all| && Ends(all[i], decode) {
      assert i < |inputs| ==> inputs[i] == all[i];
    }
  }

  /** Messages for one call: credits first, and last either another one or a cancel. */
  predicate IsCreditsThenCancel(log: seq<Control>, id: nat) {
    && (forall i :: 0 <= i < |log| ==> log[i].callId == id)
    && (forall i :: 0 <= i < |log| - 1 ==> log[i].Credit?)
  }

  lemma CreditAhead(credit: Control, rest: seq<Control>, id: nat)
    requires IsCreditsThenCancel(rest, id) && credit.Credit? && credit.callId == id
    ensures var log := [credit] + rest;
      IsCreditsThenCancel(log, id) && log[|log| - 1] == if rest == [] then credit else rest[|rest| - 1]
  {
  }

  /** Credits first, and after them at most one cancel, which only a call that has ended can have. */
  lemma {:induction false} CreditsThenCancel<M>(id: nat, inputs: seq<Input>, decode: Decoder<M>)
    ensures var log := Sent(id, inputs, decode);
      IsCreditsThenCancel(log, id) && (!HasEnded(inputs, decode) && log != [] ==> log[|log| - 1].Credit?)
    decreases inputs
  {
    if inputs != [] {
      EndedTail(inputs, decode);
      CreditsThenCancel(id, inputs[1..], decode);
      var log, rest := Sent(id, inputs, decode), Sent(id, inputs[1..], decode);
      if !Ends(inputs[0], decode) && !inputs[0].open {
        assert log == rest;
      } else if !Ends(inputs[0], decode) {
        CreditAhead(Credit(id, |inputs[0].item.bytes|), rest, id);
        assert log == [Credit(id, |inputs[0].item.bytes|)] + rest;
      }
    }
  }

  /** Nothing is sent after the end of the call, whatever still happens. */
  lemma {:induction false} SilentAfterEnd<M>(id: nat, inputs: seq<Input>, more: seq<Input>, decode: Decoder<M>)
    requires HasEnded(inputs, decode)
    ensures Sent(id, inputs + more, decode) == Sent(id, inputs, decode)
    decreases inputs
  {
    EndedTail(inputs, decode);
    assert (inputs + more)[0] == inputs[0] && (inputs + more)[1..] == inputs[1..] + more;
    if !Ends(inputs[0], decode) { SilentAfterEnd(id, inputs[1..], more, decode); }
  }

  /** The sizes of the payloads whose messages the caller was given. */
  function HandedOut<M>(before: seq<Input>, inputs: seq<Input>, decode: Decoder<M>): seq<nat>
    decreases inputs
  {
    if inputs == [] then []
    else
      (if inputs[0].Receive? && Answer(before, inputs[0].item, inputs[0].open, decode).Message?
       then [|inputs[0].item.bytes|] else [])
      + HandedOut(before + [inputs[0]], inputs[1..], decode)
  }

  function Credited(log: seq<Control>): seq<nat> {
    if log == [] then []
    else (if log[0].Credit? then [log[0].bytes] else []) + Credited(log[1..])
  }

  lemma {:induction false} NothingHandedOut<M>(before: seq<Input>, inputs: seq<Input>, decode: Decoder<M>)
    requires HasEnded(before, decode)
    ensures HandedOut(before, inputs, decode) == []
    decreases inputs
  {
    if inputs != [] {
      EndedAfter(before, inputs[0], decode);
      NothingHandedOut(before + [inputs[0]], inputs[1..], decode);
    }
  }

  /** The credits are the sizes of exactly the payloads whose messages the caller was given. */
  lemma {:induction false} CreditsMatchMessages<M>(id: nat, before: seq<Input>, inputs: seq<Input>, decode: Decoder<M>)
    requires !HasEnded(before, decode)
    ensures Credited(Sent(id, inputs, decode)) == HandedOut(before, inputs, decode)
    decreases inputs
  {
    if inputs != [] {
      EndedAfter(before, inputs[0], decode);
      if Ends(inputs[0], decode) {
        NothingHandedOut(before + [inputs[0]], inputs[1..], decode);
        assert [Cancel(id)][1..] == [];
      } else {
        CreditsMatchMessages(id, before + [inputs[0]], inputs[1..], decode);
        var rest := Sent(id, inputs[1..], decode);
        assert ([Credit(id, |inputs[0].item.bytes|)] + rest)[1..] == rest && [] + rest == rest;
      }
    }
  }

  // ---- The code ----

  /** The control channel, shared by all streams of a client. Its receiver may go away. */
  class ControlChannel {
    var sent: seq<Control>
    var open: bool

    constructor ()
      ensures sent == [] && open
    {
      sent, open := [], true;
    }

    method Send(control: Control) returns (ok: bool)
      modifies this`sent
      ensures ok == open && sent == if open then old(sent) + [control] else old(sent)
    {
      if open { sent := sent + [control]; }
      ok := open;
    }
  }

  class Stream<!M> {
    const control: ControlChannel
    const decode: Decoder<M>
    var callId: Option<nat>
    ghost const id: nat
    ghost var inputs: seq<Input>
    ghost var mine: seq<Control>

    /** The stream is armed until its call ends, and what it has sent is what its inputs call for. */
    ghost predicate Valid()
      reads this
    {
      && mine == Sent(id, inputs, decode)
      && callId == if HasEnded(inputs, decode) then None else Some(id)
    }

    constructor (id: nat, control: ControlChannel, decode: Decoder<M>)
      ensures Valid() && this.id == id && this.control == control && this.decode == decode
      ensures inputs == [] && mine == []
    {
      this.id, this.control, this.decode := id, control, decode;
      callId := Some(id);
      inputs, mine := [], [];
    }

    method Receive(item: Item) returns (received: Received<M>)
      requires Valid()
      modifies this, control`sent
      ensures Valid() && inputs == old(inputs) + [Input.Receive(item, control.open)]
      ensures received == Answer(old(inputs), item, control.open, decode)
      ensures old(mine) <= mine && control.sent == old(control.sent) + mine[|old(mine)|..]
    {
      ghost var input := Input.Receive(item, control.open);
      SentAfter(id, inputs, input, decode);
      EndedAfter(inputs, input, decode);
      inputs := inputs + [input];
      if item.Ended? {
        callId := None;
        return NoMore;
      }
      if item.Failed? {
        callId := None;
        return Refused(item.error);
      }
      var response := decode(item.bytes);
      if response.None? {
        CancelIfArmed();
        return Refused(ResponseInvalid);
      }
      if callId.None? {
        return Refused(CallNotActive);
      }
      var ok := control.Send(Credit(callId.value, |item.bytes|));
      if !ok {
        return Refused(ConnectionUnavailable);
      }
      mine := mine + [Credit(callId.value, |item.bytes|)];
      received := Message(response.value);
    }

    /** Cancelling the stream, which dropping it does too. */
    method CancelStream()
      requires Valid()
      modifies this, control`sent
      ensures Valid() && inputs == old(inputs) + [CancelCall(control.open)]
      ensures old(mine) <= mine && control.sent == old(control.sent) + mine[|old(mine)|..]
    {
      SentAfter(id, inputs, CancelCall(control.open), decode);
      EndedAfter(inputs, CancelCall(control.open), decode);
      inputs := inputs + [CancelCall(control.open)];
      CancelIfArmed();
    }

    method CancelIfArmed()
      modifies this`callId, this`mine, control`sent
      ensures callId == None
      ensures mine == old(mine) + if old(callId).Some? && control.open then [Cancel(old(callId).value)] else []
      ensures control.sent
           == old(control.sent) + if old(callId).Some? && control.open then [Cancel(old(callId).value)] else []
    {
      if callId.Some? {
        var call := callId.value;
        callId := None;
        var ok := control.Send(Cancel(call));
        if ok { mine := mine + [Cancel(call)]; }
      }
    }
  }
}
