/** Any series of calls to `coapWritePayload`, and any series of calls to `coapReadPayload`. */
module PayloadRuns {
  import opened Bytes
  import opened OptionCodec
  import opened MessageFormat
  import opened CoapMessage

  /** The payload becomes the concatenation of what was written; `done` calls succeeded. */
  method WriteAll(message: Message, chunks: seq<seq<byte>>) returns (e: Error, done: nat)
    requires message.Valid() && message.View().Some?
    modifies message`length, message.buffer
    ensures message.Valid() && message.View().Some? && done <= |chunks| && (done == |chunks| <==> e == NoError)
    ensures message.View().value.header == old(message.View()).value.header
    ensures message.View().value.options == old(message.View()).value.options
    ensures message.View().value.Payload() == old(message.View()).value.Payload() + Concat(chunks[..done])
  {
    hide DecodeMsg, Concat;
    ghost var m := message.View().value;
    done := 0;
    e := NoError;
    ConcatNone();
    assert chunks[..0] == [];
    while done < |chunks|
      invariant done <= |chunks| && message.Valid() && message.View().Some?
      invariant message.View().value.header == m.header && message.View().value.options == m.options
      invariant message.View().value.Payload() == m.Payload() + Concat(chunks[..done])
    {
      e := message.WritePayload(chunks[done]);
      if e != NoError {
        return;
      }
      ConcatSnoc(chunks, done);
      done := done + 1;
    }
    e := NoError;
  }

  /**
   * Reads from the start of the payload return it once and in order. `EndOfStream` is reported by
   * the first read after the last byte was delivered, and by no earlier one.
   */
  method ReadAll(message: Message, sizes: seq<nat>) returns (e: Error, data: seq<byte>, done: nat)
    requires message.Valid() && message.View().Some? && message.pos == 0
    requires forall i | 0 <= i < |sizes| :: sizes[i] > 0
    modifies message`pos
    ensures message.Valid() && message.View() == old(message.View()) && done <= |sizes|
    ensures var payload := message.View().value.Payload();
            && message.pos == |data| <= |payload| && data == payload[..|data|]
            && (e == EndOfStream <==> done < |sizes|)
            && (e == EndOfStream ==> data == payload)
            && (e == EndOfStream || e == NoError)
            && (data == payload ==> |payload| <= Sum(sizes[..done]))
            && (data != payload ==> done == |sizes| && |data| == Sum(sizes))
  {
    hide DecodeMsg, Sum;
    ghost var payload := message.View().value.Payload();
    e, data, done := NoError, [], 0;
    SumNone();
    assert sizes[..0] == [];
    while done < |sizes|
      invariant message.Valid() && message.View() == old(message.View()) && done <= |sizes|
      invariant message.pos == |data| <= |payload| && data == payload[..|data|]
      invariant |data| <= Sum(sizes[..done]) && (|data| < |payload| ==> |data| == Sum(sizes[..done]))
    {
      var chunk;
      e, chunk := message.ReadPayload(sizes[done]);
      if e != NoError {
        assert payload[..|payload|] == payload;
        return;
      }
      assert payload[..|data|] + payload[|data|..|data| + |chunk|] == payload[..|data| + |chunk|];
      data := data + chunk;
      SumSnoc(sizes, done);
      done := done + 1;
    }
    assert sizes[..done] == sizes;
    e := NoError;
  }
}
