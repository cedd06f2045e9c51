/** The agent's array of candidate pairs, what it sends and the connection's state, updated in place. */
module IceAgent {
  import opened Bytes
  import opened Ice
  import opened IceAnswer
  import opened Stun
  import opened StunChange
  import opened IceWire
  import M = StunMessage

  const MAX_PAIRS: nat := 100

  /** Pairs of indices with the same address family, row by row; `i` rows done, `j` columns of the next. */
  function Matches(local: seq<nat>, remote: seq<nat>, i: nat, j: nat): seq<(nat, nat)>
    requires i <= |local| && j <= |remote| && (i == |local| ==> j == 0)
    decreases i, j
  {
    if j > 0 then
      Matches(local, remote, i, j - 1) + (if local[i] == remote[j - 1] then [(i, j - 1)] else [])
    else if i > 0 then Matches(local, remote, i - 1, |remote|)
    else []
  }

  predicate Before(a: (nat, nat), b: (nat, nat)) { a.0 < b.0 || (a.0 == b.0 && a.1 < b.1) }

  predicate SameFamily(local: seq<nat>, remote: seq<nat>, p: (nat, nat)) {
    p.0 < |local| && p.1 < |remote| && local[p.0] == remote[p.1]
  }

  ghost predicate Ascending(m: seq<(nat, nat)>) {
    forall x, y :: 0 <= x < y < |m| ==> Before(m[x], m[y])
  }

  ghost predicate AllBelow(local: seq<nat>, remote: seq<nat>, m: seq<(nat, nat)>, end: (nat, nat)) {
    forall x :: 0 <= x < |m| ==> SameFamily(local, remote, m[x]) && Before(m[x], end)
  }

  /** Only same-family pairs, each at most once, in order. */
  lemma {:induction false} MatchesSound(local: seq<nat>, remote: seq<nat>, i: nat, j: nat)
    requires i <= |local| && j <= |remote| && (i == |local| ==> j == 0)
    ensures var m := Matches(local, remote, i, j); AllBelow(local, remote, m, (i, j)) && Ascending(m)
    decreases i, j
  {
    if j > 0 {
      MatchesSound(local, remote, i, j - 1);
    } else if i > 0 {
      MatchesSound(local, remote, i - 1, |remote|);
    }
  }

  /** And all of them. */
  lemma {:induction false} MatchesComplete(local: seq<nat>, remote: seq<nat>, i: nat, j: nat, a: nat, b: nat)
    requires i <= |local| && j <= |remote| && (i == |local| ==> j == 0)
    requires a < |local| && b < |remote| && Before((a, b), (i, j)) && local[a] == remote[b]
    ensures (a, b) in Matches(local, remote, i, j)
    decreases i, j
  {
    if j > 0 {
      if (a, b) != (i, j - 1) { MatchesComplete(local, remote, i, j - 1, a, b); }
    } else {
      MatchesComplete(local, remote, i - 1, |remote|, a, b);
    }
  }

  lemma MatchesNext(local: seq<nat>, remote: seq<nat>, i: nat, j: nat)
    requires i < |local|
    ensures j < |remote| ==>
              Matches(local, remote, i, j + 1) ==
              if local[i] == remote[j] then Matches(local, remote, i, j) + [(i, j)] else Matches(local, remote, i, j)
    ensures Matches(local, remote, i + 1, 0) == Matches(local, remote, i, |remote|)
  {
  }

  /** The pairs still to come only add to those found. */
  lemma {:induction false} MatchesGrow(local: seq<nat>, remote: seq<nat>, i: nat, j: nat)
    requires i <= |local| && j <= |remote| && (i == |local| ==> j == 0)
    ensures |Matches(local, remote, i, j)| <= |Matches(local, remote, |local|, 0)|
    decreases |local| - i, |remote| - j
  {
    if i < |local| {
      MatchesNext(local, remote, i, j);
      if j < |remote| { MatchesGrow(local, remote, i, j + 1); } else { MatchesGrow(local, remote, i + 1, 0); }
    }
  }

  /** The nominated pair succeeds if what was heard is an answer. */
  function Heard(c: Check, answered: bool): Check
    requires HasNominee(c)
  {
    if answered then c.(pairs := c.pairs[c.nominated.value := c.pairs[c.nominated.value].(state := Succeeded)]) else c
  }

  /** A message on the stack. */
  method NewMessage(j: Junk) returns (m: M.Message)
    ensures fresh(m) && fresh(m.buf) && m.Valid() && m.buf[..] == j.0 && m.fields == j.1
  {
    m := new M.Message(j.1);
    Memcpy(m.buf, 0, j.0);
  }

  lemma WriteTwo(buf: seq<byte>, a: Attr, b: Attr)
    requires |buf| == BUF_SIZE && EndOf(HEADER, [a, b]) <= BUF_SIZE
    ensures HEADER + 4 + Pad(|a.value|) + 4 + Pad(|b.value|) == EndOf(HEADER, [a, b])
    ensures WriteAll(buf, HEADER, [a, b]) == WriteAttr(WriteAttr(buf, HEADER, a), HEADER + 4 + Pad(|a.value|), b)
  {
    hide Pad, WriteAttr;
    assert [a, b][..1] == [a] && [a][..0] == [];
    assert EndOf(HEADER, [a]) == HEADER + 4 + Pad(|a.value|);
    assert WriteAll(buf, HEADER, [a]) == WriteAttr(buf, HEADER, a);
  }

  class Agent {
    const pairs: array<Pair>
    var num: nat
    var nominated: Option<nat>
    var selected: Option<nat>
    var state: PcState
    const callback: bool
    var requests: seq<nat>
    const hmac: Hmac
    const localPwd: seq<byte>
    const remotePwd: seq<byte>
    const localUfrag: seq<byte>
    const remoteUfrag: seq<byte>
    var transactionId: seq<byte>
    var sent: seq<seq<byte>>

    ghost predicate Valid()
      reads this
    {
      && pairs.Length == MAX_PAIRS && num <= MAX_PAIRS
      && |transactionId| == 12 && |localUfrag| + |remoteUfrag| < 128
    }

    /** The user name of the agent's responses. */
    function Username(): seq<byte> { localUfrag + [58] + remoteUfrag }

    ghost function View(): Check
      requires Valid()
      reads this, pairs
    {
      Check(pairs[..num], nominated, selected, state, callback, requests)
    }

    constructor (callback: bool, hmac: Hmac, localPwd: seq<byte>, remotePwd: seq<byte>, localUfrag: seq<byte>, remoteUfrag: seq<byte>)
      requires |localUfrag| + |remoteUfrag| < 128
      ensures Valid() && fresh(pairs) && View() == Start([], callback) && sent == []
      ensures this.hmac == hmac && this.localPwd == localPwd && this.remotePwd == remotePwd
      ensures Username() == localUfrag + [58] + remoteUfrag
    {
      pairs := new Pair[MAX_PAIRS](_ => Pair(0, 0, Frozen, 0));
      num, nominated, selected, state, requests := 0, None, None, Checking, [];
      this.callback, this.hmac, this.localPwd, this.remotePwd := callback, hmac, localPwd, remotePwd;
      this.localUfrag, this.remoteUfrag := localUfrag, remoteUfrag;
      transactionId, sent := seq(12, i => 0), [];
    }

    /** agent_update_candidate_pairs, for candidates given by their address families. */
    method UpdateCandidatePairs(local: seq<nat>, remote: seq<nat>)
      requires Valid() && num + |Matches(local, remote, |local|, 0)| <= MAX_PAIRS
      modifies this`num, pairs
      ensures Valid() && pairs[..old(num)] == old(pairs[..num])
      ensures var m := Matches(local, remote, |local|, 0);
              num == old(num) + |m| && Filled(old(num), m)
    {
      hide Matches;
      ghost var start := num;
      NoneMatched(local, remote);
      for i := 0 to |local|
        invariant Valid() && pairs[..start] == old(pairs[..num])
        invariant num == start + |Matches(local, remote, i, 0)|
        invariant Filled(start, Matches(local, remote, i, 0))
      {
        MatchesNext(local, remote, i, |remote|);
        for j := 0 to |remote|
          invariant Valid() && pairs[..start] == old(pairs[..num])
          invariant num == start + |Matches(local, remote, i, j)|
          invariant Filled(start, Matches(local, remote, i, j))
        {
          MatchesNext(local, remote, i, j);
          if local[i] == remote[j] {
            MoreToCome(local, remote, i, j);
            AddPair(start, i, j, Matches(local, remote, i, j));
          }
        }
      }
    }

    lemma NoneMatched(local: seq<nat>, remote: seq<nat>)
      ensures Matches(local, remote, 0, 0) == []
    {
    }

    lemma MoreToCome(local: seq<nat>, remote: seq<nat>, i: nat, j: nat)
      requires i < |local| && j < |remote| && local[i] == remote[j]
      ensures |Matches(local, remote, i, j)| < |Matches(local, remote, |local|, 0)|
    {
      hide Matches;
      MatchesNext(local, remote, i, j);
      MatchesGrow(local, remote, i, j + 1);
    }

    method AddPair(ghost start: nat, i: nat, j: nat, ghost m: seq<(nat, nat)>)
      requires Valid() && start + |m| == num < MAX_PAIRS && Filled(start, m)
      modifies this`num, pairs
      ensures Valid() && num == start + |m| + 1 && Filled(start, m + [(i, j)]) && pairs[..start] == old(pairs[..start])
    {
      pairs[num] := Pair(i, j, Frozen, pairs[num].conncheck);
      num := num + 1;
    }

    ghost predicate Filled(start: nat, m: seq<(nat, nat)>)
      reads this, pairs
    {
      start + |m| <= pairs.Length &&
      forall x :: 0 <= x < |m| ==>
        var p := pairs[start + x]; p.local == m[x].0 && p.remote == m[x].1 && p.state.Frozen?
    }

    /** agent_select_candidate_pair */
    method SelectCandidatePair() returns (found: bool)
      requires Valid()
      modifies this, pairs
      ensures Valid() && (View(), found) == SelectFrom(old(View()), 0) && sent == old(sent)
    {
      ghost var c := View();
      var i := 0;
      while i < num
        invariant Valid() && i <= num && num == old(num) && sent == old(sent) && SelectFrom(c, 0) == SelectFrom(View(), i)
      {
        var p := pairs[i];
        ghost var was := pairs[..num];
        match p.state {
          case Frozen =>
            nominated := Some(i);
            pairs[i] := p.(conncheck := 0, state := InProgress);
            assert pairs[..num] == was[i := pairs[i]];
            return true;
          case InProgress =>
            pairs[i] := p.(conncheck := p.conncheck + 1);
            assert pairs[..num] == was[i := pairs[i]];
            if p.conncheck + 1 < CONNCHECK_MAX { return true; }
            pairs[i] := pairs[i].(state := Failed);
            assert pairs[..num] == was[i := p.(conncheck := p.conncheck + 1, state := Failed)];
          case Succeeded =>
            selected := Some(i);
            return true;
          case _ =>
        }
        i := i + 1;
      }
      found := false;
    }

    /**
     agent_create_binding_response, for the transaction id last stored: whoever parses it finds its own
     address there, whatever its memory held.
     */
    method CreateBindingResponse(d: Datagram) returns (bytes: seq<byte>)
      requires Valid() && Proper(d)
      ensures Headed(bytes, 0x01, 0x01, transactionId)
      ensures forall j: Junk :: Told(j, bytes, d.from, localUfrag + [58] + remoteUfrag)
      ensures bytes == BindingResponse(hmac, localPwd, d.reply, transactionId, Mapped(d.scratch, transactionId, d.from), Username())
    {
      hide Stun.Create, WriteAttr, Finish, Mapped, Pad, Overwrite, Stun.Message, WriteAll, EndOf, Headed, Told;
      BuiltTells(hmac, localPwd, d.reply, transactionId, d.scratch, d.from, Username());
      var mapped, username := Mapped(d.scratch, transactionId, d.from), Username();
      ghost var a, b := Attr(XOR_MAPPED_ADDRESS, mapped), Attr(USERNAME, username);
      EndOfTwo(a, b);
      ResponseFits(mapped, username);
      var m := NewMessage(d.reply);
      m.Create(0x0101);
      Memcpy(m.buf, 8, transactionId);
      WriteTwo(m.buf[..], a, b);
      m.WriteAttribute(XOR_MAPPED_ADDRESS, |mapped|, Some(mapped));
      m.WriteAttribute(USERNAME, |username|, Some(username));
      m.Close(hmac, localPwd);
      bytes := m.buf[..m.size];
    }

    /** stun_msg_is_valid on the bytes of a message, in a copy of its own. */
    method IsValidCopy(m: M.Message, key: seq<byte>, second: Junk) returns (ok: bool)
      requires m.Valid()
      ensures ok <==> IsValid(hmac, key, second.1, Overwrite(second.0, 0, m.buf[..m.size]), m.size) == Some(true)
    {
      hide IsValid;
      var copy := NewMessage(second);
      var r := copy.Check(hmac, key, m.buf[..m.size]);
      ok := r == Some(true);
    }

    /** agent_process_stun_request */
    method ProcessStunRequest(m: M.Message, d: Datagram)
      requires Valid() && m.Valid() && Proper(d)
      modifies this`transactionId, this`sent
      ensures Valid()
      ensures var ok := m.stunmethod == BINDING &&
                        IsValid(hmac, localPwd, d.second.1, Overwrite(d.second.0, 0, m.buf[..m.size]), m.size) == Some(true);
              var id := m.buf[8..HEADER];
              && transactionId == (if ok then id else old(transactionId))
              && sent == old(sent) +
                 if ok then [BindingResponse(hmac, localPwd, d.reply, id, Mapped(d.scratch, id, d.from), Username())] else []
    {
      hide IsValid, BindingResponse, Mapped;
      if m.stunmethod == BINDING {
        var ok := IsValidCopy(m, localPwd, d.second);
        if ok {
          transactionId := m.buf[8..HEADER];
          var reply := CreateBindingResponse(d);
          sent := sent + [reply];
        }
      }
    }

    /** agent_process_stun_response */
    method ProcessStunResponse(m: M.Message, second: Junk)
      requires Valid() && HasNominee(View()) && m.Valid()
      modifies pairs
      ensures Valid()
      ensures View() == Heard(old(View()), m.stunmethod == BINDING &&
                IsValid(hmac, remotePwd, second.1, Overwrite(second.0, 0, m.buf[..m.size]), m.size) == Some(true))
    {
      hide IsValid;
      if m.stunmethod == BINDING {
        var ok := IsValidCopy(m, remotePwd, second);
        if ok {
          var k := nominated.value;
          pairs[k] := pairs[k].(state := Succeeded);
        }
      }
    }

    /**
     agent_recv: what is no STUN message is left to the caller, of the length returned. One longer than
     the message it is copied to is dropped here; the source writes past its end.
     */
    method AgentRecv(d: Option<Datagram>, buf: array<byte>) returns (n: nat)
      requires Valid() && HasNominee(View()) && buf.Length == RECV_BUF && (d.Some? ==> Proper(d.value))
      modifies this`transactionId, this`sent, pairs, buf
      ensures Valid() && View() == Heard(old(View()), Answers(hmac, remotePwd, d))
      ensures sent == old(sent) + if d.Some? then Reply(hmac, localPwd, Username(), d.value) else []
      ensures transactionId ==
              if d.Some? && Authentic(hmac, localPwd, REQUEST, d.value) then Held(d.value.first, d.value.bytes)[8..HEADER]
              else old(transactionId)
      ensures d.Some? ==> buf[..] == Received(d.value.bytes)
      ensures n == if d.Some? && !Probe(Received(d.value.bytes)) then |d.value.bytes| else 0
    {
      hide IsValid, Parse, ClassOf, MethodOf, TypeOf, BindingResponse, Mapped, Probe;
      if d.None? { return 0; }
      var bytes := d.value.bytes;
      ReceiveInto(buf, bytes);
      if |bytes| == 0 || !Probe(buf[..]) { return |bytes|; }
      if |bytes| > BUF_SIZE { return 0; }
      var m := NewMessage(d.value.first);
      Memcpy(m.buf, 0, bytes);
      m.size := |bytes|;
      var ok := m.ParseBuf();
      assert m.buf[..m.size] == bytes;
      if ok {
        if m.stunclass == REQUEST {
          ProcessStunRequest(m, d.value);
        } else if m.stunclass == RESPONSE {
          ProcessStunResponse(m, d.value.second);
        }
      }
      n := 0;
    }

    /** The receive buffer is cleared, then filled. */
    method ReceiveInto(buf: array<byte>, bytes: seq<byte>)
      requires buf.Length == RECV_BUF && |bytes| <= RECV_BUF
      modifies buf
      ensures buf[..] == Received(bytes)
    {
      forall i | 0 <= i < buf.Length { buf[i] := 0; }
      Memcpy(buf, 0, bytes);
    }

    /** agent_connectivity_check */
    method ConnectivityCheck(d: Option<Datagram>) returns (ok: bool)
      requires Valid() && HasNominee(View()) && (d.Some? ==> Proper(d.value))
      modifies this, pairs
      ensures Valid() && (View(), ok) == Connectivity(old(View()), Answers(hmac, remotePwd, d))
      ensures sent == old(sent) +
              if d.Some? && old(pairs[nominated.value]).state.InProgress? then Reply(hmac, localPwd, Username(), d.value) else []
    {
      hide Answers, Reply, Received, Probe;
      var k := nominated.value;
      if !pairs[k].state.InProgress? { return false; }
      if pairs[k].conncheck % CONNCHECK_PERIOD == 0 {
        requests := requests + [k];
      }
      var buf := new byte[RECV_BUF](_ => 0);
      var n := AgentRecv(d, buf);
      if pairs[k].state.Succeeded? {
        selected := nominated;
        return true;
      }
      ok := false;
    }

    method StateChanged(s: PcState)
      requires Valid()
      modifies this`state
      ensures View() == Changed(old(View()), s)
    {
      if callback && state != s {
        state := s;
      }
    }

    /** peer_connection_loop while checking. */
    method Loop(d: Option<Datagram>)
      requires Valid() && (d.Some? ==> Proper(d.value))
      modifies this, pairs
      ensures Valid() && View() == Turn(old(View()), Answers(hmac, remotePwd, d))
      ensures sent == old(sent) || (d.Some? && sent == old(sent) + Reply(hmac, localPwd, Username(), d.value))
    {
      hide SelectFrom, Connectivity, Answers, Reply;
      if state != Checking { return; }
      var found := SelectCandidatePair();
      if !found {
        StateChanged(ConnectionFailed);
      } else if nominated.Some? && nominated.value < num {
        var ok := ConnectivityCheck(d);
        if ok { StateChanged(Connected); }
      }
    }
  }

  lemma ResponseFits(mapped: seq<byte>, username: seq<byte>)
    requires |mapped| <= 20 && |username| <= 128
    ensures Pad(|mapped|) <= 20 && Pad(|username|) <= 128
  {
  }
}
