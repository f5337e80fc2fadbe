/**
 * `CoapMessage` of `coap_message.h`: a fixed buffer that holds an encoded message and is edited in
 * place. The methods are proved against the abstract message that the buffer decodes to; on
 * buffers that do not decode they are still proved to stay inside the buffer.
 */
module CoapMessage {
  import opened Bytes
  import opened OptionCodec
  import opened OptionList
  import opened MessageFormat
  import opened MessageParse
  import opened OptionEditor
  import opened OptionEdits

  const COAP_MAX_MSG_SIZE := 1152

  class Message {
    /** One byte longer than a message: room for the terminator written after a payload. */
    const buffer: array<byte>
    var length: nat
    var pos: nat

    ghost predicate Valid()
      reads this
    {
      buffer.Length == COAP_MAX_MSG_SIZE + 1 && length <= COAP_MAX_MSG_SIZE
    }

    ghost function Bytes(): (s: seq<byte>)
      requires Valid()
      reads this, buffer
      ensures |s| == length
    {
      buffer[..length]
    }

    /** The message that the buffer holds, if it holds one. */
    ghost function View(): (m: Option<Msg>)
      requires Valid()
      reads this, buffer
    {
      DecodeMsg(Bytes())
    }

    // -------------------------------------------------------------- steps of the editor

    method RemoveBytes(p: nat, n: nat)
      requires Valid() && p + n <= length
      modifies this`length, buffer
      ensures Valid() && length == old(length) - n
      ensures Bytes() == old(Bytes())[..p] + old(Bytes())[p + n..]
    {
      hide Write;
      ghost var s := buffer[..];
      RemoveText(s, p, n, length);
      assert buffer[p + n..length] == s[p + n..length];
      Memmove(buffer, p, p + n, length - n - p);
      length := length - n;
      assert Bytes() == buffer[..][..length];
    }

    method InsertOption(p: nat, prev: uint16, num: uint16, value: seq<byte>)
      requires Valid() && p <= length
      requires length + |Format(prev, Opt(num, value))| <= COAP_MAX_MSG_SIZE
      modifies this`length, buffer
      ensures Valid() && length == old(length) + |Format(prev, Opt(num, value))|
      ensures Bytes() == old(Bytes())[..p] + Format(prev, Opt(num, value)) + old(Bytes())[p..]
    {
      hide Format, HeaderSize, Delta, Write;
      ghost var s := buffer[..];
      ghost var x := Format(prev, Opt(num, value));
      var n := HeaderSize(Delta(prev, num), |value|) + |value|;
      InsertText(s, p, length, x);
      assert buffer[p..length] == s[p..length];
      Memmove(buffer, p + n, p, length - p);
      var m := FormatInto(buffer, p, prev, num, Given(value));
      length := length + n;
      assert Bytes() == buffer[..][..length];
    }

    /** Rewrites the header of the option at `p`, whose value lies at `p + at`, to follow `to`. */
    method Reformat(p: nat, to: uint16, q: Parsed, at: nat) returns (m: nat)
      requires Valid() && p + at + q.len <= length
      requires HeaderSize(Delta(to, q.number), q.len) <= at
      modifies buffer
      ensures Valid() && m == HeaderSize(Delta(to, q.number), q.len) + q.len
      ensures var s := old(Bytes());
              Bytes() == s[..p] + Format(to, Opt(q.number, s[p + at..p + at + q.len])) + s[p + m..]
    {
      hide Format, Delta, HeaderSize, Write;
      ghost var s := buffer[..];
      m := HeaderSize(Delta(to, q.number), q.len) + q.len;
      ReformatText(s, length, p, at, q.len, Format(to, Opt(q.number, s[p + at..p + at + q.len])));
      m := FormatInto(buffer, p, to, q.number, InPlace(p + at, q.len));
      assert Bytes() == buffer[..][..length];
    }

    /** Re-encodes the option at `p`, which now follows `to` instead of the smaller `from`. */
    method RefitShrink(p: nat, from: uint16, to: uint16)
      requires Valid() && p <= length && from <= to
      requires var s := Bytes()[p..];
               !IsTail(s) ==> Parse(s, from).Ok? && to < Parse(s, from).value.number
      modifies this`length, buffer
      ensures Valid()
      ensures Bytes() == old(Bytes())[..p] + Refit(old(Bytes())[p..], from, to)
    {
      hide Format, Parse, Delta, HeaderSize, Refit, IsTail;
      ghost var s := Bytes();
      RefitText(s, p, from, to);
      if p < length && buffer[p] != PAYLOAD_MARKER {
        assert buffer[p..length] == s[p..];
        var q := Parse(buffer[p..length], from).value;
        ShortenHeader(p, to, q);
      }
    }

    /** Rewrites the option at `p` with a header that is not longer than the present one. */
    method ShortenHeader(p: nat, to: uint16, q: Parsed)
      requires Valid() && p + q.Consumed() <= length && HeaderSize(Delta(to, q.number), q.len) <= q.at
      modifies this`length, buffer
      ensures Valid()
      ensures var s := old(Bytes());
              Bytes() == s[..p] + (Format(to, Opt(q.number, s[p + q.at..p + q.Consumed()])) + s[p..][q.Consumed()..])
    {
      hide Format, Delta, HeaderSize;
      ghost var s := Bytes();
      ghost var x := Format(to, Opt(q.number, s[p + q.at..p + q.Consumed()]));
      var n := q.Consumed();
      var m := Reformat(p, to, q, q.at);
      assert Bytes() == s[..p] + x + s[p + m..];
      if m < n {
        RemoveBytes(p + m, n - m);
      }
      RefitJoin(s, p, x, m, n);
    }

    /** Re-encodes the option at `p`, which now follows `to` instead of the larger `from`. */
    method RefitGrow(p: nat, from: uint16, to: uint16)
      requires Valid() && p < length && buffer[p] != PAYLOAD_MARKER && to <= from
      requires Parse(Bytes()[p..], from).Ok?
      requires length + Growth(Bytes()[p..], from, to) <= COAP_MAX_MSG_SIZE
      modifies this`length, buffer
      ensures Valid() && length == old(length) + Growth(old(Bytes())[p..], from, to)
      ensures var s := old(Bytes());
              !Wrapped(s[p..], from) ==> Bytes() == s[..p] + Refit(s[p..], from, to)
    {
      hide Format, Parse, Delta, HeaderSize, Wrapped, Growth, Refit;
      ghost var s := Bytes();
      assert buffer[p..length] == s[p..];
      var q := Parse(buffer[p..length], from).value;
      var n := q.Consumed();
      var h := HeaderSize(Delta(to, q.number), q.len);
      RefitGrows(s[p..], from, to);
      ghost var x := Format(to, ParsedOpt(s[p..], q));
      SliceOf(s, p, q.at, n);
      if h > q.at {
        LengthenHeader(p, to, q, h);
      } else {
        var m := Reformat(p, to, q, q.at);
        if m == n {
          RefitJoin(s, p, x, m, n);
        }
      }
    }

    /** Rewrites the option at `p` with a header of `h` bytes, which is longer than the present one. */
    method LengthenHeader(p: nat, to: uint16, q: Parsed, h: nat)
      requires Valid() && p + q.at + q.len <= length
      requires h == HeaderSize(Delta(to, q.number), q.len) && q.at < h && length + h - q.at <= COAP_MAX_MSG_SIZE
      modifies this`length, buffer
      ensures Valid() && length == old(length) + h - q.at
      ensures var s := old(Bytes());
              Bytes() == s[..p] + (Format(to, Opt(q.number, s[p + q.at..p + q.Consumed()])) + s[p..][q.Consumed()..])
    {
      hide Format, Delta, HeaderSize;
      ghost var s := Bytes();
      ghost var x := Format(to, Opt(q.number, s[p + q.at..p + q.Consumed()]));
      ShiftUp(p + q.at, h - q.at);
      ghost var t := Bytes();
      GrowJoin(s, t, p, q, h, x);
      ghost var value := t[p + h..p + h + q.len];
      assert value == s[p + q.at..p + q.Consumed()];
      var m := Reformat(p, to, q, h);
    }

    /** Moves everything from offset `q` on up by `n` bytes. */
    method ShiftUp(q: nat, n: nat)
      requires Valid() && q <= length && length + n <= COAP_MAX_MSG_SIZE
      modifies this`length, buffer
      ensures Valid() && length == old(length) + n
      ensures Bytes()[..q] == old(Bytes())[..q] && Bytes()[q + n..] == old(Bytes())[q..]
    {
      hide Write;
      ghost var s := buffer[..];
      assert buffer[q..length] == s[q..length];
      ShiftText(s, q, n, length);
      Memmove(buffer, q + n, q, length - q);
      length := length + n;
      assert Bytes() == buffer[..][..length];
    }

    // -------------------------------------------------------------- options

    /** `coapSetOption`. */
    method SetOption(num: uint16, idx: nat, value: seq<byte>) returns (e: Error)
      requires Valid()
      modifies this`length, buffer
      ensures Valid()
      ensures old(View()).Some? && e == NoError ==>
                View() == Some(old(View()).value.(options := SetOpt(old(View()).value.options, num, idx, value)))
      ensures old(View()).Some? ==>
                e == if SizeOnSet(old(View()).value, num, idx, value) > COAP_MAX_MSG_SIZE then BufferOverflow
                     else NoError
      ensures e == BufferOverflow ==> Bytes() == AfterFailedSet(old(Bytes()), num, idx)
      ensures e != NoError && e != BufferOverflow ==> Bytes() == old(Bytes())
      ensures e == NoError ==> |value| <= COAP_MAX_MSG_SIZE
    {
      hide DecodeMsg, Scan, Stopped, Format, HeaderSize, Delta, Parse, Refit, Growth, Wrapped, SetOpt, DeleteOpt,
           Between, Locate, SizeOnSet;
      ghost var s := Bytes();
      var r := FindOption(buffer[..length], num, idx);
      if DecodeMsg(s).Some? { ScanLocates(s, num, idx); }
      if r.Err? {
        return r.error;
      }
      var spot := r.value;
      ScanStops(s, num, idx);
      StoppedFacts(s, num, spot);
      SetSlices(s, spot.p, spot.size, Format(spot.prev, Opt(num, value)));
      if spot.found {
        RemoveBytes(spot.p, spot.size);
      }
      var n := HeaderSize(Delta(spot.prev, num), |value|) + |value|;
      if DecodeMsg(s).Some? { SetSize(s, num, idx, value); }
      if length + n > COAP_MAX_MSG_SIZE {
        return BufferOverflow;
      }
      InsertOption(spot.p, spot.prev, num, value);
      if !spot.found {
        RefitShrink(spot.p + n, spot.prev, num);
      }
      if DecodeMsg(s).Some? { SetDecodes(s, num, idx, value); }
      e := NoError;
    }

    /** `coapDeleteOption`. */
    method DeleteOption(num: uint16, idx: nat) returns (e: Error)
      requires Valid()
      modifies this`length, buffer
      ensures Valid() && length <= old(length)
      ensures old(View()).Some? ==>
                && e == NoError
                && View() == Some(old(View()).value.(options := DeleteOpt(old(View()).value.options, num, idx)))
    {
      hide DecodeMsg, Scan, Stopped, Format, HeaderSize, Delta, Parse, Growth, Wrapped, Between, Locate;
      ghost var s := Bytes();
      var r := FindOption(buffer[..length], num, idx);
      if DecodeMsg(s).Some? { ScanLocates(s, num, idx); }
      if r.Err? {
        return r.error;
      }
      var spot := r.value;
      if spot.found {
        ScanStops(s, num, idx);
        StoppedFacts(s, num, spot);
        SetSlices(s, spot.p, spot.size, []);
        if DecodeMsg(s).Some? { DeleteDecodes(s, num, idx); }
        RemoveBytes(spot.p, spot.size);
        if spot.p < length && buffer[spot.p] != PAYLOAD_MARKER {
          assert buffer[spot.p..length] == Bytes()[spot.p..] == s[spot.p + spot.size..];
          assert s[spot.p + spot.size..][0] == buffer[spot.p];
          var q := Parse(buffer[spot.p..length], num);
          if q.Err? {
            return q.error;
          }
          GrowthBounded(s[spot.p..], s[spot.p + spot.size..], spot.prev, num);
          RefitGrow(spot.p, num, spot.prev);
        }
      }
      e := NoError;
    }

    /** `coapGetOption`: the value of occurrence `idx` of option `num`. */
    method GetOption(num: uint16, idx: nat) returns (r: Result<seq<byte>>)
      requires Valid()
      ensures View().Some? ==>
                r == if idx < |Values(View().value.options, num)| then Ok(Values(View().value.options, num)[idx])
                     else Err(NotFound)
      ensures r.Ok? ==> idx < length
    {
      hide DecodeMsg, Between, ParseHeader, GetFrom, Values;
      var s := buffer[..length];
      var h := ParseHeader(s);
      if DecodeMsg(s).Some? {
        BetweenStart(s);
        GetFromMeaning(DecodeMsg(s).value, s, h.value, 0, 0, num, idx);
        assert DecodeMsg(s).value.options[0..] == DecodeMsg(s).value.options;
      }
      if h.Err? {
        return Err(h.error);
      }
      GetBound(s, h.value, 0, num, idx);
      r := FindValue(s, h.value, num, idx);
    }

    /** `coapGetUintOption`: the value is read as a big-endian number modulo 2^32. */
    method GetUintOption(num: uint16, idx: nat) returns (r: Result<uint32>)
      requires Valid()
      ensures View().Some? ==>
                r == if idx < |Values(View().value.options, num)| then
                       Ok(UintValue(Values(View().value.options, num)[idx]))
                     else Err(NotFound)
    {
      hide DecodeMsg, Values;
      var v := GetOption(num, idx);
      if v.Err? {
        return Err(v.error);
      }
      var n := FromBytes(v.value);
      r := Ok(n);
    }

    /** `coapSetUintOption`: stores the shortest big-endian representation. */
    method SetUintOption(num: uint16, idx: nat, value: uint32) returns (e: Error)
      requires Valid()
      modifies this`length, buffer
      ensures Valid()
      ensures old(View()).Some? && e == NoError ==>
                View() == Some(old(View()).value.(options := SetOpt(old(View()).value.options, num, idx, UintBytes(value))))
      ensures old(View()).Some? ==>
                e == if SizeOnSet(old(View()).value, num, idx, UintBytes(value)) > COAP_MAX_MSG_SIZE then BufferOverflow
                     else NoError
      ensures e == BufferOverflow ==> Bytes() == AfterFailedSet(old(Bytes()), num, idx)
    {
      hide DecodeMsg, SetOpt, SizeOnSet, AfterFailedSet;
      var v := ToBytes(value);
      e := SetOption(num, idx, v);
    }

    /** `coapGetCode`. */
    method GetCode() returns (r: Result<byte>)
      requires Valid()
      ensures View().Some? ==> r == Ok(Code(View().value))
    {
      hide DecodeList;
      if length < HEADER_SIZE {
        return Err(InvalidMessage);
      }
      r := Ok(buffer[1]);
    }

    /** Fills the buffer with a received datagram and rewinds the reading position. */
    method Load(data: seq<byte>)
      requires Valid() && |data| <= COAP_MAX_MSG_SIZE
      modifies this`length, this`pos, buffer
      ensures Valid() && Bytes() == data && pos == 0
    {
      Memcpy(buffer, 0, data);
      length, pos := |data|, 0;
    }

    // -------------------------------------------------------------- payload

    /** The offset behind the options, as the payload functions find it. */
    method FindPayload() returns (r: Result<nat>)
      requires Valid()
      ensures r == PayloadOffset(Bytes())
      ensures View().Some? ==>
                r.Ok? && Bytes()[r.value..] == View().value.tail
                && Bytes()[..r.value] == View().value.header + EncodeList(0, View().value.options)
    {
      hide DecodeMsg, Between, ParseHeader, EncodeList, EndFrom;
      var s := buffer[..length];
      var h := ParseHeader(s);
      if DecodeMsg(s).Some? { BetweenStart(s); }
      if h.Err? {
        return Err(h.error);
      }
      r := SkipOptions(s, h.value, DecodeMsg(s));
    }

    /** `coapParseMessage`: rejects what does not parse, and a marker without a payload. */
    method ParseMessage() returns (e: Error)
      requires Valid()
      ensures e == NoError <==> IsAccepted(Bytes())
      ensures PayloadOffset(Bytes()).Err? ==> e == PayloadOffset(Bytes()).error
      ensures PayloadOffset(Bytes()).Ok? && e != NoError ==> e == InvalidMessage
    {
      hide DecodeMsg, EncodeList, PayloadOffset;
      var p := FindPayload();
      if p.Err? {
        return p.error;
      }
      ghost var s := Bytes();
      assert length - p.value == 1 <==> |s[p.value..]| == 1;
      assert length - p.value == 1 ==> s[p.value..] == [s[p.value]] && s[p.value] == s[p.value..][0];
      e := if length - p.value == 1 then InvalidMessage else NoError;
    }

    /** `coapGetPayload`. */
    method GetPayload() returns (r: Result<seq<byte>>)
      requires Valid()
      ensures View().Some? ==> r == Ok(View().value.Payload())
    {
      hide DecodeMsg;
      var p := FindPayload();
      if p.Err? {
        return Err(p.error);
      }
      ghost var s := Bytes();
      if p.value < length {
        assert buffer[p.value + 1..length] == s[p.value..][1..];
        r := Ok(buffer[p.value + 1..length]);
      } else {
        r := Ok([]);
      }
    }

    /** `coapSetPayload`: the old payload is trimmed before the size is checked. */
    method SetPayload(payload: seq<byte>) returns (e: Error)
      requires Valid()
      modifies this`length, buffer
      ensures Valid()
      ensures old(View()).Some? ==>
                var m := old(View()).value;
                var room := |m.header| + |EncodeList(0, m.options)| + 1 + |payload| <= COAP_MAX_MSG_SIZE;
                && e == (if payload == [] || room then NoError else BufferOverflow)
                && View() == Some(m.(tail := if payload == [] || !room then [] else [PAYLOAD_MARKER] + payload))
    {
      hide DecodeMsg, EncodeList;
      ghost var s := Bytes();
      var p := FindPayload();
      if p.Err? {
        return p.error;
      }
      if DecodeMsg(s).Some? {
        TailDecodes(s, []);
        TailDecodes(s, [PAYLOAD_MARKER] + payload);
        assert s[..p.value] + [] == s[..p.value];
      }
      length := p.value;
      assert Bytes() == s[..p.value];
      if payload == [] {
        return NoError;
      }
      if length + |payload| + 1 > COAP_MAX_MSG_SIZE {
        return BufferOverflow;
      }
      Append([PAYLOAD_MARKER] + payload);
      e := NoError;
    }

    /** Writes bytes and a terminator behind the message. */
    method Append(data: seq<byte>)
      requires Valid() && length + |data| <= COAP_MAX_MSG_SIZE
      modifies this`length, buffer
      ensures Valid() && length == old(length) + |data| && Bytes() == old(Bytes()) + data
    {
      ghost var s := buffer[..];
      Memcpy(buffer, length, data);
      length := length + |data|;
      buffer[length] := 0;
    }

    /** `coapWritePayload`: appends to the payload. */
    method WritePayload(data: seq<byte>) returns (e: Error)
      requires Valid()
      modifies this`length, buffer
      ensures Valid()
      ensures old(View()).Some? ==>
                var m := old(View()).value;
                var marker := if m.tail == [] then 1 else 0;
                var fits := data == [] || old(length) + |data| + marker <= COAP_MAX_MSG_SIZE;
                && e == (if fits then NoError else BufferOverflow)
                && View().Some?
                && View().value.header == m.header && View().value.options == m.options
                && View().value.Payload() == if fits then m.Payload() + data else m.Payload()
      ensures e != NoError ==> Bytes() == old(Bytes())
      ensures old(View()).Some? && e == NoError && data != [] ==> View().value.tail != []
      ensures old(View()).Some? && data == [] ==> View() == old(View())
    {
      hide DecodeMsg, EncodeList, PayloadOffset;
      var p := FindPayload();
      if p.Err? {
        return p.error;
      }
      if data == [] {
        return NoError;
      }
      if View().Some? { PayloadGrows(View().value, data); }
      if p.value == length {
        if length + |data| + 1 > COAP_MAX_MSG_SIZE {
          return BufferOverflow;
        }
        Extend(p.value, [PAYLOAD_MARKER] + data);
      } else {
        if length + |data| > COAP_MAX_MSG_SIZE {
          return BufferOverflow;
        }
        Extend(p.value, data);
      }
      e := NoError;
    }

    /** Appends to what follows the options, which end at `p`. */
    method Extend(p: nat, extra: seq<byte>)
      requires Valid() && PayloadOffset(Bytes()) == Ok(p) && length + |extra| <= COAP_MAX_MSG_SIZE
      requires p == length ==> IsTail(extra)
      modifies this`length, buffer
      ensures Valid() && Bytes() == old(Bytes()) + extra
      ensures old(View()).Some? ==> View() == Some(old(View()).value.(tail := old(View()).value.tail + extra))
    {
      hide DecodeMsg, EncodeList, PayloadOffset, Wraps;
      ghost var s := Bytes();
      Append(extra);
      if DecodeMsg(s).Some? {
        AcceptedIff(s);
        ExtendDecodes(s, p, extra);
      }
    }

    /** `coapReadPayload`: the next bytes of the payload, at most `size` of them. */
    method ReadPayload(size: nat) returns (e: Error, data: seq<byte>)
      requires Valid()
      modifies this`pos
      ensures Valid()
      ensures View().Some? ==>
                var payload := View().value.Payload();
                if old(pos) < |payload| then
                  && e == NoError && pos == old(pos) + |data| <= |payload|
                  && data == payload[old(pos)..pos]
                  && |data| == (if |payload| - old(pos) <= size then |payload| - old(pos) else size)
                else
                  e == EndOfStream && data == [] && pos == old(pos)
    {
      hide DecodeMsg, EncodeList;
      data := [];
      var p := FindPayload();
      if p.Err? {
        return p.error, [];
      }
      var s := buffer[..length];
      var start := if p.value < length then p.value + 1 else p.value;
      var n := length - start;
      ghost var payload := if p.value < length then s[p.value..][1..] else [];
      assert payload == s[start..] && (View().Some? ==> payload == View().value.Payload());
      if pos < n {
        n := if n - pos <= size then n - pos else size;
        data := s[start + pos..start + pos + n];
        SliceOf(s, start, pos, pos + n);
        pos := pos + n;
        e := NoError;
      } else {
        e := EndOfStream;
      }
    }
  }

  // ---------------------------------------------------------------- reading options

  /** The search of `coapGetOption`, which goes on to the end of the options. */
  function GetFrom(s: seq<byte>, p: nat, prev: uint16, num: uint16, idx: nat): (r: Result<seq<byte>>)
    requires p <= |s|
    decreases |s| - p
  {
    if IsTail(s[p..]) then Err(NotFound) else
    var q := Parse(s[p..], prev);
    if q.Err? then Err(q.error)
    else if q.value.number == num && idx == 0 then Ok(ParsedOpt(s[p..], q.value).value)
    else GetFrom(s, p + q.value.Consumed(), q.value.number, num, if q.value.number == num then idx - 1 else idx)
  }

  lemma GetStep(s: seq<byte>, p: nat, prev: uint16, num: uint16, idx: nat)
    requires p <= |s|
    ensures p == |s| || s[p] == PAYLOAD_MARKER ==> GetFrom(s, p, prev, num, idx) == Err(NotFound)
    ensures p < |s| && s[p] != PAYLOAD_MARKER ==>
              match Parse(s[p..], prev)
              case Err(e) => GetFrom(s, p, prev, num, idx) == Err(e)
              case Ok(q) =>
                GetFrom(s, p, prev, num, idx)
                == if q.number != num then GetFrom(s, p + q.Consumed(), q.number, num, idx)
                   else if idx == 0 then Ok(ParsedOpt(s[p..], q).value)
                   else GetFrom(s, p + q.Consumed(), q.number, num, idx - 1)
  {
    hide Parse, ParsedOpt;
  }

  /** An option takes at least one byte, so there are fewer occurrences than bytes. */
  lemma {:induction false} GetBound(s: seq<byte>, p: nat, prev: uint16, num: uint16, idx: nat)
    requires p <= |s|
    ensures GetFrom(s, p, prev, num, idx).Ok? ==> idx < |s| - p
    decreases |s| - p
  {
    hide Parse, ParsedOpt, GetFrom, IsTail;
    GetStep(s, p, prev, num, idx);
    if p < |s| && s[p] != PAYLOAD_MARKER && Parse(s[p..], prev).Ok? {
      var q := Parse(s[p..], prev).value;
      GetBound(s, p + q.Consumed(), q.number, num, if q.number == num && idx > 0 then idx - 1 else idx);
    }
  }

  /** The loop of `coapGetOption`. */
  method FindValue(s: seq<byte>, first: nat, num: uint16, idx: nat) returns (r: Result<seq<byte>>)
    requires first <= |s|
    ensures r == GetFrom(s, first, 0, num, idx)
  {
    hide *;
    var p: nat, length: nat, prev: uint16, index: nat := first, |s| - first, 0, 0;
    while length > 0
      invariant p + length == |s| && index <= idx
      invariant GetFrom(s, p, prev, num, idx - index) == GetFrom(s, first, 0, num, idx)
    {
      GetStep(s, p, prev, num, idx - index);
      if s[p] == PAYLOAD_MARKER {
        return Err(NotFound);
      }
      var q := Parse(s[p..], prev);
      if q.Err? {
        return Err(q.error);
      }
      var n := q.value.Consumed();
      if q.value.number == num {
        if index == idx {
          return Ok(ParsedOpt(s[p..], q.value).value);
        }
        index := index + 1;
      }
      prev, p, length := q.value.number, p + n, length - n;
    }
    GetStep(s, p, prev, num, idx - index);
    r := Err(NotFound);
  }

  lemma {:induction false} GetFromMeaning(m: Msg, s: seq<byte>, p: nat, prev: uint16, k: nat, num: uint16, idx: nat)
    requires Between(m, s, p, prev, k)
    ensures k <= |m.options| && p <= |s|
    ensures var v := Values(m.options[k..], num);
            GetFrom(s, p, prev, num, idx) == if idx < |v| then Ok(v[idx]) else Err(NotFound)
    decreases |m.options| - k
  {
    hide Parse, ParsedOpt, Between, GetFrom, IsTail, Format;
    BetweenBounds(m, s, p, prev, k);
    BetweenTail(m, s, p, prev, k);
    TailByte(s, p);
    GetStep(s, p, prev, num, idx);
    if k < |m.options| {
      BetweenNext(m, s, p, prev, k);
      var o := m.options[k];
      assert m.options[k..] == [o] + m.options[k + 1..];
      ValuesCons(o, m.options[k + 1..], num);
      GetFromMeaning(m, s, p + |Format(prev, o)|, o.number, k + 1, num,
                     if o.number == num && idx > 0 then idx - 1 else idx);
    }
  }

  /** `coapParseOptions`: the loop that skips the option list. */
  method SkipOptions(s: seq<byte>, first: nat, ghost w: Option<Msg>) returns (r: Result<nat>)
    requires first <= |s|
    requires w.Some? ==> Between(w.value, s, first, 0, 0)
    ensures r == EndFrom(s, first, 0)
    ensures w.Some? ==>
              r.Ok? && s[r.value..] == w.value.tail
              && s[..r.value] == w.value.header + EncodeList(0, w.value.options)
  {
    hide Parse, ParsedOpt, Between, IsTail, EncodeList, Format, EndFrom;
    var p: nat, length: nat, prev: uint16 := first, |s| - first, 0;
    ghost var k := 0;
    while length > 0
      invariant p + length == |s| && first <= p
      invariant EndFrom(s, p, prev) == EndFrom(s, first, 0)
      invariant w.Some? ==> Between(w.value, s, p, prev, k)
    {
      TailByte(s, p);
      EndStep(s, p, prev);
      if s[p] == PAYLOAD_MARKER {
        break;
      }
      if w.Some? {
        BetweenBounds(w.value, s, p, prev, k);
        BetweenTail(w.value, s, p, prev, k);
        BetweenNext(w.value, s, p, prev, k);
      }
      var q := Parse(s[p..], prev);
      if q.Err? {
        return Err(q.error);
      }
      prev, p, length := q.value.number, p + q.value.Consumed(), length - q.value.Consumed();
      k := k + 1;
    }
    TailByte(s, p);
    EndStep(s, p, prev);
    if w.Some? {
      BetweenTail(w.value, s, p, prev, k);
      Behind(w.value, s, p, prev, k);
      assert w.value.options[..k] == w.value.options;
    }
    r := Ok(p);
  }

  lemma PayloadGrows(m: Msg, data: seq<byte>)
    ensures m.tail == [] ==> m.(tail := m.tail + ([PAYLOAD_MARKER] + data)).Payload() == m.Payload() + data
    ensures m.tail != [] ==> m.(tail := m.tail + data).Payload() == m.Payload() + data
  {
  }

  lemma ExtendDecodes(s: seq<byte>, p: nat, extra: seq<byte>)
    requires DecodeMsg(s).Some? && p <= |s| && s[p..] == DecodeMsg(s).value.tail && IsTail(s[p..] + extra)
    ensures var m := DecodeMsg(s).value; DecodeMsg(s + extra) == Some(m.(tail := m.tail + extra))
  {
    hide DecodeMsg, EncodeList;
    var m := DecodeMsg(s).value;
    EncodeOfDecodeMsg(s);
    TailDecodes(s, m.tail + extra);
    assert m.header + EncodeList(0, m.options) + (m.tail + extra) == m.header + EncodeList(0, m.options) + m.tail + extra;
  }

  /** Replacing what follows the options leaves the header and the options alone. */
  lemma TailDecodes(s: seq<byte>, tail: seq<byte>)
    requires DecodeMsg(s).Some? && IsTail(tail)
    ensures var m := DecodeMsg(s).value;
            DecodeMsg(m.header + EncodeList(0, m.options) + tail) == Some(m.(tail := tail))
  {
    hide DecodeMsg, EncodeList, IsTail, Ascending, ParseHeader;
    EncodeOfDecodeMsg(s);
    DecodeOfEncodeMsg(DecodeMsg(s).value.(tail := tail));
  }

  // ---------------------------------------------------------------- uint values (section 3.2 of RFC 7252)

  /** The shortest big-endian representation. */
  function UintBytes(v: nat): (s: seq<byte>)
  {
    if v == 0 then [] else UintBytes(v / 256) + [v % 256]
  }

  /** Reads a big-endian number in 32-bit arithmetic. */
  function UintValue(s: seq<byte>): (v: uint32)
  {
    if s == [] then 0 else Accumulate(UintValue(s[..|s| - 1]), s[|s| - 1])
  }

  function Accumulate(v: uint32, b: byte): (r: uint32)
  {
    (v * 256 + b) % 0x1_0000_0000
  }

  /** A byte behind the others is the lowest one of the number. */
  lemma BigEndian(s: seq<byte>, b: byte)
    ensures UintValue([]) == 0
    ensures UintValue(s + [b]) == (256 * UintValue(s) as int + b as int) % 0x1_0000_0000
  {
    UintValueSnoc(s, b);
  }

  lemma AccumulateDigit(v: uint32)
    ensures v / 256 < 0x1_0000_0000 && Accumulate(v / 256, v % 256) == v
  {
  }

  /** Reading back what was stored; the representation has no leading zero byte. */
  lemma {:induction false} UintRoundTrip(v: uint32)
    ensures UintValue(UintBytes(v)) == v
    ensures UintBytes(v) != [] ==> UintBytes(v)[0] != 0
    decreases v
  {
    if v > 0 {
      hide Accumulate, UintValue;
      AccumulateDigit(v);
      UintRoundTrip(v / 256);
      UintValueSnoc(UintBytes(v / 256), v % 256);
    }
  }

  lemma UintValueSnoc(s: seq<byte>, b: byte)
    ensures UintValue(s + [b]) == Accumulate(UintValue(s), b)
  {
    hide Accumulate;
    assert (s + [b])[..|s|] == s;
  }

  lemma UintSize(v: uint32)
    ensures |UintBytes(v)| <= 4
  {
    var a := v / 256;
    var b := a / 256;
    var c := b / 256;
    assert c < 256 && c / 256 == 0;
    assert UintBytes(c / 256) == [];
    assert |UintBytes(c)| <= 1;
    assert |UintBytes(b)| <= 2;
    assert |UintBytes(a)| <= 3;
  }

  method ToBytes(value: uint32) returns (s: seq<byte>)
    ensures s == UintBytes(value)
  {
    var v: nat := value;
    s := [];
    while v != 0
      invariant UintBytes(v) + s == UintBytes(value)
    {
      assert UintBytes(v) + s == UintBytes(v / 256) + ([v % 256] + s);
      s := [v % 256] + s;
      v := v / 256;
    }
  }

  method FromBytes(s: seq<byte>) returns (v: uint32)
    ensures v == UintValue(s)
  {
    v := 0;
    for i := 0 to |s|
      invariant v == UintValue(s[..i])
    {
      assert s[..i + 1][..i] == s[..i];
      v := Accumulate(v, s[i]);
    }
    assert s[..|s|] == s;
  }

  // ---------------------------------------------------------------- byte moves

  lemma SliceOf(s: seq<byte>, p: nat, a: nat, b: nat)
    requires a <= b && p + b <= |s|
    ensures s[p..][a..b] == s[p + a..p + b]
    ensures p + b == |s| ==> s[p..][a..] == s[p + a..]
  {
  }

  /** Writing `x` at `p` into a buffer of which the first `n` bytes count. */
  lemma ReformatText(s: seq<byte>, n: nat, p: nat, at: nat, len: nat, x: seq<byte>)
    requires n <= |s| && p + at + len <= n && p + |x| <= n
    ensures s[..n][p + at..p + at + len] == s[p + at..p + at + len]
    ensures Write(s, p, x)[..n] == s[..n][..p] + x + s[..n][p + |x|..]
  {
    hide Write;
    PutAt(s, p, n, x);
    SubSlice(s, 0, n, p + at, p + at + len);
    SubSlice(s, 0, n, p + |x|, n);
  }

  lemma RemoveText(s: seq<byte>, p: nat, n: nat, length: nat)
    requires p + n <= length <= |s|
    ensures Write(s, p, s[p + n..length])[..length - n] == s[..length][..p] + s[..length][p + n..]
  {
    hide Write;
    RemoveAt(s, p, n, length);
    SubSlice(s, 0, length, p + n, length);
  }

  lemma InsertText(s: seq<byte>, p: nat, length: nat, x: seq<byte>)
    requires p <= length && length + |x| <= |s|
    ensures Write(Write(s, p + |x|, s[p..length]), p, x)[..length + |x|] == s[..length][..p] + x + s[..length][p..]
  {
    hide Write;
    InsertAt(s, p, length, x);
    SubSlice(s, 0, length, p, length);
  }

  /** What the option behind offset `p` is encoded to again. */
  lemma RefitText(s: seq<byte>, p: nat, from: uint16, to: uint16)
    requires p <= |s| && from <= to
    requires !IsTail(s[p..]) ==> Parse(s[p..], from).Ok? && to < Parse(s[p..], from).value.number
    ensures p == |s| || s[p] == PAYLOAD_MARKER ==> s[..p] + Refit(s[p..], from, to) == s
    ensures p < |s| && s[p] != PAYLOAD_MARKER ==>
              Parse(s[p..], from).Ok? &&
              var q := Parse(s[p..], from).value;
              && p + q.Consumed() <= |s| && HeaderSize(Delta(to, q.number), q.len) <= q.at
              && Refit(s[p..], from, to)
                 == Format(to, Opt(q.number, s[p + q.at..p + q.Consumed()])) + s[p..][q.Consumed()..]
  {
    hide Format, Parse, Delta, HeaderSize;
    TailByte(s, p);
    if p < |s| && s[p] != PAYLOAD_MARKER {
      var q := Parse(s[p..], from).value;
      RefitShrinks(s[p..], from, to);
      SliceOf(s, p, q.at, q.Consumed());
    } else {
      assert s == s[..p] + s[p..];
    }
  }

  lemma ShiftText(s: seq<byte>, q: nat, n: nat, length: nat)
    requires q <= length && length + n <= |s|
    ensures var t := Write(s, q + n, s[q..length])[..length + n];
            t[..q] == s[..length][..q] && t[q + n..] == s[..length][q..]
  {
  }

  lemma RefitJoin(s: seq<byte>, p: nat, x: seq<byte>, m: nat, n: nat)
    requires m == |x| && m <= n && p + n <= |s|
    ensures var t := s[..p] + x + s[p + m..];
            && t[..p + m] + t[p + n..] == s[..p] + (x + s[p..][n..])
            && (m == n ==> t == s[..p] + (x + s[p..][n..]))
  {
  }

  /** The value and the bytes behind it, once moved up to make room for a longer header. */
  lemma GrowJoin(s: seq<byte>, t: seq<byte>, p: nat, q: Parsed, h: nat, x: seq<byte>)
    requires p + q.at + q.len <= |s| && h > q.at && |t| == |s| + (h - q.at) && |x| == h + q.len
    requires t[..p + q.at] == s[..p + q.at] && t[p + h..] == s[p + q.at..]
    ensures t[p + h..p + h + q.len] == s[p + q.at..p + q.at + q.len]
    ensures t[..p] + x + t[p + |x|..] == s[..p] + (x + s[p..][q.at + q.len..])
  {
    assert t[..p] == t[..p + q.at][..p];
    assert t[p + h..p + h + q.len] == t[p + h..][..q.len];
    assert t[p + h + q.len..] == t[p + h..][q.len..];
  }

  lemma SetSlices(s: seq<byte>, p: nat, n: nat, x: seq<byte>)
    requires p + n <= |s|
    ensures (s[..p] + x + s[p..])[..p + |x|] == s[..p] + x && (s[..p] + x + s[p..])[p + |x|..] == s[p..]
    ensures (s[..p] + s[p + n..])[..p] == s[..p] && (s[..p] + s[p + n..])[p..] == s[p + n..]
  {
  }

  // ---------------------------------------------------------------- a failed replacement

  /** A message with the options 1, 3 and 5. */
  function ThreeOptions(): (m: Msg)
  {
    Msg([0x40, 0x01, 0x00, 0x00], [Opt(1, []), Opt(3, [7]), Opt(5, [9])], [])
  }

  /**
   * Replacing option 3 by a value that does not fit fails, and leaves a message with the options 1
   * and 3 behind, in which the value of option 5 is that of option 3.
   */
  lemma FailedReplaceExample(value: seq<byte>)
    requires |value| == COAP_MAX_MSG_SIZE
    ensures var m := ThreeOptions();
            && DecodeMsg(EncodeMsg(m)) == Some(m)
            && SizeOnSet(m, 3, 0, value) > COAP_MAX_MSG_SIZE
            && DecodeMsg(AfterFailedSet(EncodeMsg(m), 3, 0)) == Some(m.(options := [Opt(1, []), Opt(3, [9])]))
  {
    hide DecodeMsg, EncodeMsg, Format, AfterFailedSet, EncodeList;
    var m := ThreeOptions();
    ThreeOptionsFacts();
    DecodeOfEncodeMsg(m);
    FailedReplace(EncodeMsg(m), 3, 0);
    FormatSize(1, Opt(3, value));
  }

  lemma ThreeOptionsFacts()
    ensures var m := ThreeOptions();
            && m.WellFormed() && Locate(m.options, 3, 0) == Location(1, true)
            && m.options[..1] == [Opt(1, [])] && m.options[2..] == [Opt(5, [9])]
            && Last(0, m.options[..1]) == 1
            && m.options[..1] + ShiftDown(m.options[2..], 2) == [Opt(1, []), Opt(3, [9])]
            && |EncodeMsg(m)| >= |Format(1, m.options[1])|
  {
    hide Format;
    var opts := ThreeOptions().options;
    assert opts[1..] == [Opt(3, [7]), Opt(5, [9])] && opts[1..][1..] == [Opt(5, [9])];
    assert opts[..1] == [Opt(1, [])] && opts[2..] == [Opt(5, [9])];
    assert opts[2..][1..] == [];
    assert EncodeList(1, opts[1..]) == Format(1, opts[1]) + EncodeList(3, opts[1..][1..]);
  }

  lemma FormatSize(prev: uint16, b: Opt)
    ensures |Format(prev, b)| > |b.value|
  {
  }

  // ---------------------------------------------------------------- an insertion refused

  /** `coapSetOption` refuses an edit whose result would fit. */
  ghost predicate IsRefusedInVain(m: Msg, num: uint16, idx: nat, value: seq<byte>)
  {
    && SizeOnSet(m, num, idx, value) > COAP_MAX_MSG_SIZE
    && |EncodeMsg(m.(options := SetOpt(m.options, num, idx, value)))| <= COAP_MAX_MSG_SIZE
  }

  /**
   * That happens if and only if the result fits, but not with the header that the following option
   * has before the insertion; so only to insertions in front of another option.
   */
  lemma RefusedInVain(m: Msg, num: uint16, idx: nat, value: seq<byte>)
    requires m.WellFormed()
    ensures var n := |EncodeMsg(m.(options := SetOpt(m.options, num, idx, value)))|;
            IsRefusedInVain(m, num, idx, value) <==> n <= COAP_MAX_MSG_SIZE < n + Slack(m, num, idx)
    ensures IsRefusedInVain(m, num, idx, value) ==>
              var l := Locate(m.options, num, idx); !l.found && l.pos < |m.options|
  {
    hide SizeOnSet, EncodeMsg, SetOpt, Locate, Format;
    SetSizeExact(m, num, idx, value);
  }

  /** A message with the option 300 and a payload of 1142 bytes. */
  function AlmostFull(payload: seq<byte>): (m: Msg)
  {
    Msg([0x40, 0x01, 0x00, 0x00], [Opt(300, [])], [PAYLOAD_MARKER] + payload)
  }

  /** Inserting the empty option 290 would give 1151 bytes and is refused. */
  lemma RefusedInVainExample(payload: seq<byte>)
    requires |payload| == 1142
    ensures var m := AlmostFull(payload);
            && m.WellFormed() && IsRefusedInVain(m, 290, 0, [])
            && |EncodeMsg(m.(options := SetOpt(m.options, 290, 0, [])))| == 1151
  {
    hide SizeOnSet, Slack, SetOpt;
    var m := AlmostFull(payload);
    var opts := m.options;
    assert opts == [Opt(300, [])] && opts[..0] == [];
    InsertedBefore(opts);
    SetSizeExact(m, 290, 0, []);
    InsertedSizes();
    assert EncodeMsg(m.(options := [Opt(290, []), Opt(300, [])]))
        == m.header + EncodeList(0, [Opt(290, []), Opt(300, [])]) + m.tail;
    SlackOfTwo(m);
  }

  lemma InsertedBefore(opts: seq<Opt>)
    requires opts == [Opt(300, [])]
    ensures Locate(opts, 290, 0) == Location(0, false) && SetOpt(opts, 290, 0, []) == [Opt(290, []), Opt(300, [])]
  {
    assert opts[..0] == [] && opts[0..] == opts;
  }

  lemma InsertedSizes()
    ensures |Format(0, Opt(300, []))| == 3 && |Format(290, Opt(300, []))| == 1
    ensures |EncodeList(0, [Opt(290, []), Opt(300, [])])| == 4
  {
    var a, b := Opt(290, []), Opt(300, []);
    assert [a, b] == [a] + [b] && [b] == [b] + [];
    EncodeCons(0, a, [b]);
    EncodeCons(290, b, []);
    EncodeNothing(300);
  }

  lemma SlackOfTwo(m: Msg)
    requires m.options == [Opt(300, [])]
    ensures Slack(m, 290, 0) == 2
  {
    hide Format;
    InsertedBefore(m.options);
    InsertedSizes();
    assert m.options[..0] == [];
  }
}
