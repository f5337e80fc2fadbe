/**
 * The DTLS session table of the CoAP server: demultiplexing, first-free allocation, eviction of
 * the oldest session, expiry. What the DTLS library answers is an input of each step.
 */
module DtlsSessions {
  import opened Bytes

  const COAP_SERVER_SESSION_TIMEOUT := 60000

  /** Server address, client address and client port. */
  datatype Peer = Peer(server: nat, client: nat, port: uint16)

  /** A slot of the table; it is in use when its DTLS context is not NULL. */
  datatype Session = Session(live: bool, peer: Peer, timestamp: uint32)

  /** Time since a timestamp, on a clock that wraps at 2^32. */
  function Age(time: uint32, timestamp: uint32): (a: uint32)
  {
    (time - timestamp) % 0x1_0000_0000
  }

  /** No two sessions in use belong to the same peer. */
  ghost predicate Distinct(s: seq<Session>)
  {
    forall i, j | 0 <= i < j < |s| && s[i].live && s[j].live :: s[i].peer != s[j].peer
  }

  ghost predicate Knows(s: seq<Session>, peer: Peer)
  {
    exists i :: 0 <= i < |s| && s[i].live && s[i].peer == peer
  }

  /** What became of a datagram. */
  datatype Outcome =
    | Delivered(slot: nat)
    | Allocated(slot: nat)
    | Evicted(slot: nat)

  class SessionTable {
    const sessions: array<Session>

    ghost predicate Valid()
      reads this, sessions
    {
      sessions.Length >= 1 && Distinct(sessions[..])
    }

    constructor (size: nat)
      requires size >= 1
      ensures Valid() && fresh(sessions) && sessions.Length == size
      ensures forall i | 0 <= i < size :: !sessions[i].live
    {
      sessions := new Session[size](_ => Session(false, Peer(0, 0, 0), 0));
    }

    /** `coapServerDeleteSession`. */
    method Delete(i: nat)
      requires Valid() && i < sessions.Length
      modifies sessions
      ensures Valid() && sessions[..] == old(sessions[..])[i := old(sessions[i]).(live := false)]
    {
      sessions[i] := sessions[i].(live := false);
    }

    /** `coapServerAcceptSession`: the slot is overwritten; it stays in use only if the handshake goes on. */
    method Accept(i: nat, peer: Peer, now: uint32, accepted: bool)
      requires Valid() && i < sessions.Length && !Knows(sessions[..], peer)
      modifies sessions
      ensures Valid() && sessions[..] == old(sessions[..])[i := Session(accepted, peer, now)]
    {
      ghost var s := sessions[..];
      sessions[i] := Session(false, peer, now);
      if accepted {
        sessions[i] := sessions[i].(live := true);
      }
      assert sessions[..] == s[i := Session(accepted, peer, now)];
      AcceptDistinct(s, i, Session(accepted, peer, now));
    }

    /** `coapServerDemultiplexSession`. */
    method Demultiplex(peer: Peer, time: uint32, now: uint32, readable: bool, accepted: bool) returns (r: Outcome)
      requires Valid()
      modifies sessions
      ensures Valid() && r.slot < sessions.Length
      ensures r.Delivered? <==> Knows(old(sessions[..]), peer)
      ensures r.Delivered? ==>
                && old(sessions[r.slot].live) && old(sessions[r.slot].peer) == peer
                && sessions[..] == old(sessions[..])[r.slot := Session(readable, peer, now)]
      ensures !r.Delivered? ==> sessions[..] == old(sessions[..])[r.slot := Session(accepted, peer, now)]
      ensures r.Allocated? ==>
                !old(sessions[r.slot].live) && forall j | 0 <= j < r.slot :: old(sessions[j].live)
      ensures r.Evicted? ==>
                && (forall j | 0 <= j < sessions.Length :: old(sessions[j].live))
                && (forall j | 0 <= j < sessions.Length ::
                      Age(time, old(sessions[j].timestamp)) <= Age(time, old(sessions[r.slot].timestamp)))
                && (forall j | 0 <= j < r.slot ::
                      Age(time, old(sessions[j].timestamp)) < Age(time, old(sessions[r.slot].timestamp)))
    {
      hide Age, Distinct;
      ghost var s := sessions[..];
      var firstFree: nat, oldest: nat := sessions.Length, sessions.Length;
      var i := 0;
      while i < sessions.Length
        invariant 0 <= i <= sessions.Length && sessions[..] == s && Valid()
        invariant forall j | 0 <= j < i :: s[j].live ==> s[j].peer != peer
        invariant firstFree < sessions.Length ==>
                    firstFree < i && !s[firstFree].live && forall j | 0 <= j < firstFree :: s[j].live
        invariant firstFree >= sessions.Length ==>
                    firstFree == sessions.Length && (forall j | 0 <= j < i :: s[j].live) && (i > 0 ==> oldest < i)
        invariant oldest < sessions.Length ==>
                    && oldest < i && s[oldest].live
                    && (forall j | 0 <= j < i && s[j].live :: Age(time, s[j].timestamp) <= Age(time, s[oldest].timestamp))
                    && (forall j | 0 <= j < oldest && s[j].live :: Age(time, s[j].timestamp) < Age(time, s[oldest].timestamp))
        invariant oldest >= sessions.Length ==> oldest == sessions.Length && forall j | 0 <= j < i :: !s[j].live
      {
        if sessions[i].live {
          if sessions[i].peer == peer {
            assert s[i].live && s[i].peer == peer;
            sessions[i] := sessions[i].(timestamp := now);
            RefreshDistinct(s, i, sessions[..]);
            if !readable {
              Delete(i);
            }
            return Delivered(i);
          }
          if oldest == sessions.Length {
            oldest := i;
          } else if Age(time, sessions[i].timestamp) > Age(time, sessions[oldest].timestamp) {
            oldest := i;
          }
        } else {
          if firstFree == sessions.Length {
            firstFree := i;
          }
        }
        i := i + 1;
      }
      assert !Knows(s, peer);
      if firstFree < sessions.Length {
        Accept(firstFree, peer, now, accepted);
        r := Allocated(firstFree);
      } else {
        Delete(oldest);
        assert !Knows(sessions[..], peer) by { DeleteKnows(s, oldest, peer); }
        Accept(oldest, peer, now, accepted);
        r := Evicted(oldest);
      }
    }

    /** The expiry and handshake part of `coapServerTick`. */
    method Tick(time: uint32, progress: seq<bool>)
      requires Valid() && |progress| == sessions.Length
      modifies sessions
      ensures Valid()
      ensures forall i | 0 <= i < sessions.Length ::
                sessions[i] == old(sessions[i]).(live := old(sessions[i]).live
                  && Before(time, old(sessions[i]).timestamp) && progress[i])
    {
      hide Before, Distinct;
      ghost var s := sessions[..];
      for i := 0 to sessions.Length
        invariant Valid() && |s| == sessions.Length
        invariant forall j | i <= j < sessions.Length :: sessions[j] == s[j]
        invariant forall j | 0 <= j < i ::
                    sessions[j] == s[j].(live := s[j].live && Before(time, s[j].timestamp) && progress[j])
      {
        if sessions[i].live && (!Before(time, sessions[i].timestamp) || !progress[i]) {
          ghost var t := sessions[..];
          Delete(i);
          assert forall j | 0 <= j < sessions.Length :: sessions[j] == sessions[..][j];
          assert forall j | 0 <= j < sessions.Length && j != i :: sessions[j] == t[j];
        }
      }
    }
  }

  /** `timeCompare(time, timestamp + COAP_SERVER_SESSION_TIMEOUT) < 0`. */
  predicate Before(time: uint32, timestamp: uint32)
  {
    Age(time, (timestamp + COAP_SERVER_SESSION_TIMEOUT) % 0x1_0000_0000) >= 0x8000_0000
  }

  lemma AcceptDistinct(s: seq<Session>, i: nat, x: Session)
    requires Distinct(s) && i < |s| && !Knows(s, x.peer)
    ensures Distinct(s[i := x])
  {
  }

  lemma DeleteKnows(s: seq<Session>, i: nat, peer: Peer)
    requires i < |s| && !Knows(s, peer)
    ensures !Knows(s[i := s[i].(live := false)], peer)
  {
    var t := s[i := s[i].(live := false)];
    assert forall j | 0 <= j < |t| :: t[j].live ==> s[j].live && s[j].peer == t[j].peer;
  }

  lemma RefreshDistinct(s: seq<Session>, i: nat, t: seq<Session>)
    requires Distinct(s) && i < |s| == |t| && (forall j | 0 <= j < |s| :: t[j].live == s[j].live && t[j].peer == s[j].peer)
    ensures Distinct(t)
  {
  }

  // ---------------------------------------------------------------- the clock

  /** For true times less than 2^32 ms apart the age is the time that has passed, whether or not the clock wrapped. */
  lemma AgeMeaning(now: nat, since: nat)
    requires since <= now < since + 0x1_0000_0000
    ensures Age(now % 0x1_0000_0000, since % 0x1_0000_0000) == now - since
  {
    var a, b := now / 0x1_0000_0000, since / 0x1_0000_0000;
    DivMod(now % 0x1_0000_0000 - since % 0x1_0000_0000, 0x1_0000_0000, b - a, now - since);
  }

  /** A session expires 60 seconds after its last datagram. */
  lemma ExpiryMeaning(now: nat, since: nat)
    requires since <= now < since + 60000 + 0x8000_0000
    ensures Before(now % 0x1_0000_0000, since % 0x1_0000_0000) <==> now < since + 60000
  {
    var limit := since + 60000;
    var m := 0x1_0000_0000;
    assert (since % m + 60000) % m == limit % m by {
      DivMod(since % m + 60000, m, limit / m - since / m, limit % m);
    }
    if now >= limit {
      AgeMeaning(now, limit);
    } else {
      AgeMeaning(now + m, limit);
      DivMod(now + m, m, now / m + 1, now % m);
    }
  }
}
