/** The closing handshake as the code keeps it: one connection's state, flags and control payload buffer. */
module ClosingConnection {
  import opened Bytes
  import opened Frames
  import opened Send
  import opened SenderConnection
  import opened Closing

  datatype Flags =
    Flags(pingPending: bool, pingLen: StashLen, payloadIsClose: bool, closeLen: StashLen, checkPing: bool)

  class Connection {
    /** Framing, the truncation buffer, `state` and `socket_is_permanently_unusable`. */
    const sender: Sender
    const halfClose: bool
    const pingPayloadBuf: array<byte>
    var flags: Flags
    var sendShut: bool
    ghost var sent: seq<Kind>

    ghost predicate Valid()
      reads sender
    {
      && sender.Valid()
      && pingPayloadBuf.Length == LWS_PRE + STASH
      && pingPayloadBuf != sender.mask && pingPayloadBuf != sender.truncAlloc
    }

    ghost function State(): Endpoint
      reads this, sender, sender.truncAlloc, pingPayloadBuf
      requires Valid()
    {
      Endpoint(sender.State(), sent, sendShut, pingPayloadBuf[LWS_PRE..],
               flags.pingPending, flags.pingLen, flags.payloadIsClose, flags.closeLen, flags.checkPing)
    }

    ghost function Settings(): Config
    {
      Config(sender.bufferSize, halfClose)
    }

    /** An established connection with nothing said yet. */
    constructor (bufferSize: nat, client: bool, halfClose: bool)
      ensures Valid() && State() == Fresh(client) && Settings() == Config(bufferSize, halfClose)
    {
      var s := new Sender(bufferSize, client);
      var buf := new byte[LWS_PRE + STASH](_ => 0);
      sender, pingPayloadBuf, this.halfClose := s, buf, halfClose;
      flags, sendShut, sent := Flags(false, 0, false, 0, false), false, [];
      new;
      assert pingPayloadBuf[LWS_PRE..] == seq(STASH, _ => 0);
    }

    method Write(buf: array<byte>, len: nat, kind: Kind, noFin: bool, key: Key, answer: Answer) returns (n: int)
      requires Valid() && buf != sender.mask && buf != sender.truncAlloc
      requires LWS_PRE + len <= buf.Length && len < MAX_WRITE
      modifies this`sent, sender, buf, sender.mask, sender.truncAlloc
      ensures Valid() && (sender.truncAlloc == old(sender.truncAlloc) || fresh(sender.truncAlloc))
      ensures var r := Request(kind, noFin, old(buf[LWS_PRE..LWS_PRE + len]), key);
        (sender.State(), n) == Send.Write(old(sender.State()), r, sender.bufferSize, if sendShut then Error else answer)
      ensures sent == if |sender.items| > |old(sender.items)| then old(sent) + [kind] else old(sent)
      ensures buf[LWS_PRE..] == if MayWrite(old(sender.ws), kind, noFin) && !old(sender.insideFrame) && sender.client
                                then Masked(old(buf[LWS_PRE..]), len, key) else old(buf[LWS_PRE..])
    {
      hide Send.Write, Masked, MayWrite;
      ghost var before := |sender.items|;
      n := sender.Write(buf, len, kind, noFin, key, if sendShut then Error else answer);
      if |sender.items| > before {
        sent := sent + [kind];
      }
    }

    method WriteStash(kind: Kind, len: StashLen, key: Key, answer: Answer) returns (n: int)
      requires Valid()
      modifies this`sent, sender, pingPayloadBuf, sender.mask, sender.truncAlloc
      ensures Valid() && (sender.truncAlloc == old(sender.truncAlloc) || fresh(sender.truncAlloc))
      ensures (State(), n) == Closing.WriteStash(old(State()), kind, len, Settings(), Chance(key, answer))
    {
      hide Send.Write, Masked, MayWrite;
      assert pingPayloadBuf[LWS_PRE..LWS_PRE + len] == pingPayloadBuf[LWS_PRE..][..len];
      n := Write(pingPayloadBuf, len, kind, false, key, answer);
    }

    method JustKill(reason: Reason)
      requires Valid()
      modifies this`sendShut, sender`ws
      ensures Valid() && State() == Closing.JustKill(old(State()), reason, Settings())
    {
      if sender.ws != Shutdown && reason != ContextDestroy && !sender.unusable {
        sendShut := sendShut || halfClose;
        sender.ws := Shutdown;
      } else {
        sender.ws := DeadSocket;
      }
    }

    method OwnClose(reason: Reason, key: Key, answer: Answer)
      requires Valid() && (flags.closeLen > 0 || reason.Status?)
      modifies this, sender, pingPayloadBuf, sender.mask, sender.truncAlloc
      ensures Valid() && (sender.truncAlloc == old(sender.truncAlloc) || fresh(sender.truncAlloc))
      ensures State() == Closing.OwnClose(old(State()), reason, Settings(), Chance(key, answer))
    {
      hide Closing.WriteStash, Closing.JustKill;
      if flags.closeLen == 0 {
        PutStatus(reason.code);
      }
      var n := WriteStash(Close, flags.closeLen, key, answer);
      AfterOwnClose(n, reason);
    }

    /** Sent or kept, the Close is as good as said; refused, the connection is hung up. */
    method AfterOwnClose(n: int, reason: Reason)
      requires Valid()
      modifies this`sendShut, sender`ws
      ensures Valid()
      ensures State() == if n >= 0 then old(State()).(tx := old(State().tx).(ws := AwaitingCloseAck))
                         else Closing.JustKill(old(State()), reason, Settings())
    {
      hide Closing.JustKill;
      if n >= 0 {
        sender.ws := AwaitingCloseAck;
      } else {
        JustKill(reason);
      }
    }

    /** No prepared reason: the status, shifted as the code shifts it. */
    method PutStatus(code: nat)
      requires Valid()
      modifies this`flags, pingPayloadBuf
      ensures Valid() && flags == old(flags).(closeLen := 2)
      ensures pingPayloadBuf[LWS_PRE..] == ReasonBytes(code) + old(pingPayloadBuf[LWS_PRE..])[2..]
    {
      flags := flags.(closeLen := 2);
      pingPayloadBuf[LWS_PRE], pingPayloadBuf[LWS_PRE + 1] := code / 65536 % 256, code % 256;
    }

    /** lws_close_free_wsi */
    method CloseFree(reason: Reason, key: Key, answer: Answer)
      requires Valid()
      modifies this, sender, pingPayloadBuf, sender.mask, sender.truncAlloc
      ensures Valid() && (sender.truncAlloc == old(sender.truncAlloc) || fresh(sender.truncAlloc))
      ensures State() == Closing.CloseFree(old(State()), reason, Settings(), Chance(key, answer))
    {
      hide Closing.OwnClose, Closing.JustKill;
      if sender.unusable || reason == ContextDestroy || sender.ws == Shutdown {
        JustKill(reason);
      } else if sender.ws == DeadSocket {
      } else if sender.ws == AwaitingCloseAck {
        JustKill(reason);
      } else if sender.ws == FlushingBeforeClose {
        if sender.truncLen == 0 {
          JustKill(reason);
        }
      } else if sender.truncLen != 0 {
        sender.ws := FlushingBeforeClose;
      } else if sender.ws == Established && (flags.closeLen > 0 || reason.Status?) {
        OwnClose(reason, key, answer);
      } else {
        JustKill(reason);
      }
    }

    method StashPing(from: array<byte>, len: nat)
      requires Valid() && LWS_PRE + len <= from.Length && from != pingPayloadBuf
      modifies this`flags, pingPayloadBuf
      ensures Valid() && State() == Closing.StashPing(old(State()), from[LWS_PRE..LWS_PRE + len])
    {
      if len <= STASH {
        forall i | 0 <= i < len {
          pingPayloadBuf[LWS_PRE + i] := from[LWS_PRE + i];
        }
        flags := flags.(pingLen := len, pingPending := true);
        assert pingPayloadBuf[LWS_PRE..] == from[LWS_PRE..LWS_PRE + len] + old(pingPayloadBuf[LWS_PRE..])[len..];
      }
    }

    /** A PING in the receive buffer. */
    method PeerPing(rxUbuf: array<byte>, head: nat)
      requires Valid() && LWS_PRE + head <= rxUbuf.Length && rxUbuf != pingPayloadBuf
      modifies this`flags, pingPayloadBuf
      ensures Valid() && State() == Closing.PeerPing(old(State()), rxUbuf[LWS_PRE..LWS_PRE + head])
    {
      hide Closing.StashPing;
      if Reads(sender.ws) && !flags.pingPending && !(sender.client && flags.closeLen > 0) {
        StashPing(rxUbuf, head);
      }
    }

    method ServerPeerClose(rxUbuf: array<byte>, head: nat, verdict: int, key: Key, answer: Answer)
      requires Valid() && LWS_PRE + head <= rxUbuf.Length && rxUbuf != pingPayloadBuf
      requires rxUbuf != sender.truncAlloc && rxUbuf != sender.mask
      modifies this, sender, pingPayloadBuf, sender.mask, sender.truncAlloc
      ensures Valid() && (sender.truncAlloc == old(sender.truncAlloc) || fresh(sender.truncAlloc))
      ensures State() == Closing.ServerPeerClose(old(State()), rxUbuf[LWS_PRE..LWS_PRE + head], verdict,
                                                 Settings(), Chance(key, answer))
    {
      hide Closing.CloseFree, Closing.StashPing;
      if sender.unusable || sender.ws == AwaitingCloseAck || sender.ws == ReturnedClose {
        CloseFree(NoStatus, key, answer);
      } else if sender.truncLen != 0 {
        sender.unusable := true;
        CloseFree(NoStatus, key, answer);
      } else if verdict != 0 {
        CloseFree(NoStatus, key, answer);
      } else {
        sender.ws := ReturnedClose;
        flags := flags.(payloadIsClose := true);
        StashPing(rxUbuf, head);
      }
    }

    method ClientPeerClose(rxUbuf: array<byte>, head: nat, verdict: int, key: Key, answer: Answer)
      requires Valid() && LWS_PRE + head <= rxUbuf.Length && head < MAX_WRITE
      requires rxUbuf != pingPayloadBuf && rxUbuf != sender.truncAlloc && rxUbuf != sender.mask
      modifies this, sender, pingPayloadBuf, rxUbuf, sender.mask, sender.truncAlloc
      ensures Valid() && (sender.truncAlloc == old(sender.truncAlloc) || fresh(sender.truncAlloc))
      ensures State() == Closing.ClientPeerClose(old(State()), old(rxUbuf[LWS_PRE..LWS_PRE + head]), verdict,
                                                 Settings(), Chance(key, answer))
    {
      hide Closing.CloseFree, Closing.WriteOut;
      if sender.ws != AwaitingCloseAck && verdict == 0 {
        Parrot(rxUbuf, head, key, answer);
      }
      CloseFree(NoStatus, key, answer);
    }

    /** The peer's Close goes back as it came, whatever becomes of the write. */
    method Parrot(rxUbuf: array<byte>, head: nat, key: Key, answer: Answer)
      requires Valid() && LWS_PRE + head <= rxUbuf.Length && head < MAX_WRITE
      requires rxUbuf != pingPayloadBuf && rxUbuf != sender.truncAlloc && rxUbuf != sender.mask
      modifies this`sent, sender, rxUbuf, sender.mask, sender.truncAlloc
      ensures Valid() && (sender.truncAlloc == old(sender.truncAlloc) || fresh(sender.truncAlloc))
      ensures var f := Closing.WriteOut(old(State()), Request(Close, false, old(rxUbuf[LWS_PRE..LWS_PRE + head]), key),
                                        Settings(), answer).0;
        State() == f.(tx := f.tx.(ws := ReturnedClose))
    {
      hide Send.Write, Masked, MayWrite;
      var _ := Write(rxUbuf, head, Close, false, key, answer);
      sender.ws := ReturnedClose;
    }

    method FlushFirst(answer: Answer) returns (ok: bool)
      requires Valid()
      modifies sender`truncOffset, sender`truncLen, sender`unusable, sender`wire
      ensures Valid() && (State(), ok) == Closing.FlushFirst(old(State()), Settings(), answer)
    {
      hide Send.Flush;
      var n := sender.Flush(if sendShut then Error else answer);
      ok := n >= 0;
    }

    /** The POLLOUT handler's priorities; false asks for the connection to be closed. */
    method HandlePollout(key: Key, answer: Answer) returns (ok: bool)
      requires Valid()
      modifies this, sender, pingPayloadBuf, sender.mask, sender.truncAlloc
      ensures Valid() && (sender.truncAlloc == old(sender.truncAlloc) || fresh(sender.truncAlloc))
      ensures (State(), ok) == Closing.HandlePollout(old(State()), Settings(), Chance(key, answer))
    {
      hide Closing.WriteStash, Closing.FlushFirst;
      ok := true;
      if sender.truncLen != 0 {
        ok := FlushFirst(answer);
      } else if sender.ws == FlushingBeforeClose {
        ok := false;
      } else if (sender.ws == Established && flags.pingPending)
             || (sender.ws == ReturnedClose && flags.payloadIsClose) {
        var n := WriteStash(if flags.payloadIsClose then Close else Pong, flags.pingLen, key, answer);
        if n < 0 {
          ok := false;
        } else {
          flags := flags.(pingPending := false);
          ok := !flags.payloadIsClose;
        }
      } else if sender.ws == Established && !sender.unusable && flags.checkPing {
        flags := flags.(checkPing := false);
        var n := WriteStash(Ping, 0, key, answer);
        ok := n >= 0;
      }
    }

    method Pollout(key: Key, answer: Answer)
      requires Valid()
      modifies this, sender, pingPayloadBuf, sender.mask, sender.truncAlloc
      ensures Valid() && (sender.truncAlloc == old(sender.truncAlloc) || fresh(sender.truncAlloc))
      ensures State() == Closing.Pollout(old(State()), Settings(), Chance(key, answer))
    {
      hide Closing.HandlePollout, Closing.CloseFree;
      if sender.ws == Established || sender.ws == ReturnedClose || sender.ws == FlushingBeforeClose {
        var ok := HandlePollout(key, answer);
        if !ok {
          if sender.ws == ReturnedClose {
            sender.ws := FlushingBeforeClose;
          }
          CloseFree(NoStatus, key, answer);
        }
      }
    }

    /** lws_close_reason */
    method SetReason(code: nat, text: seq<byte>)
      requires Valid()
      modifies this`flags, pingPayloadBuf
      ensures Valid() && State() == Closing.SetReason(old(State()), code, text)
    {
      var p := PutReason(code, text);
      flags := flags.(closeLen := p);
    }

    /** The code and as much of the text as fits; returns the length. */
    method PutReason(code: nat, text: seq<byte>) returns (p: StashLen)
      requires Valid()
      modifies pingPayloadBuf
      ensures var taken := if |text| < STASH - 2 then text else text[..STASH - 2];
        && p == 2 + |taken|
        && pingPayloadBuf[LWS_PRE..] == [code / 256 % 256, code % 256] + taken + old(pingPayloadBuf[LWS_PRE..])[p..]
    {
      ghost var before := pingPayloadBuf[..];
      pingPayloadBuf[LWS_PRE], pingPayloadBuf[LWS_PRE + 1] := code / 256 % 256, code % 256;
      p := 2;
      while p - 2 < |text| && p < STASH
        invariant 2 <= p <= STASH && p - 2 <= |text|
        invariant pingPayloadBuf[LWS_PRE] == code / 256 % 256 && pingPayloadBuf[LWS_PRE + 1] == code % 256
        invariant forall j | LWS_PRE + 2 <= j < LWS_PRE + STASH ::
          pingPayloadBuf[j] == if j < LWS_PRE + p then text[j - LWS_PRE - 2] else before[j]
      {
        pingPayloadBuf[LWS_PRE + p] := text[p - 2];
        p := p + 1;
      }
      assert text[..p - 2] == if |text| < STASH - 2 then text else text[..STASH - 2];
    }
  }
}
