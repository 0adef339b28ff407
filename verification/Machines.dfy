/** Two sequential parties and the two byte streams between them. Each party is
    deterministic; how they interleave, and how many bytes one send or receive moves, is
    left open: a party moves byte by byte. */
module Machines {
  import opened Bytes
  import opened Runs

  /** What a party does in a state: send all of `msg`, receive exactly `n` bytes, or nothing. */
  datatype Action = Send(msg: seq<byte>) | Recv(n: nat) | Stop

  /** A party: `next` gives the state after an action, `closed` the one after a receive
      that finds the peer stopped and nothing left to receive. */
  datatype Machine<!S> = Machine(act: S -> Action, next: (S, seq<byte>) -> S, closed: S -> S)

  /** A party in a state; `progress` is what its action has moved so far. */
  datatype Side<S> = Side(state: S, progress: seq<byte>)

  datatype Pair<S> = Pair(a: Side<S>, b: Side<S>, ab: seq<byte>, ba: seq<byte>)

  /** One move of a party: its next side, and what it took from and put into the streams. */
  datatype Move<S> = Blocked | Moved(side: Side<S>, taken: nat, sent: seq<byte>)

  function At<S>(state: S): Side<S> {
    Side(state, [])
  }

  predicate Stopped<S>(m: Machine<S>, s: Side<S>) {
    m.act(s.state) == Stop
  }

  /** Moves one byte, or goes on to the next state. */
  function Step<S>(m: Machine<S>, s: Side<S>, inbox: seq<byte>, peerStopped: bool): (r: Move<S>)
    ensures r.Moved? ==> r.taken <= |inbox|
  {
    var done := |s.progress|;
    match m.act(s.state)
    case Stop => Blocked
    case Send(msg) =>
      if done < |msg| then Moved(Side(s.state, s.progress + [msg[done]]), 0, [msg[done]])
      else Moved(At(m.next(s.state, s.progress)), 0, [])
    case Recv(n) =>
      if done >= n then Moved(At(m.next(s.state, s.progress)), 0, [])
      else if inbox != [] then Moved(Side(s.state, s.progress + [inbox[0]]), 1, [])
      else if peerStopped then Moved(At(m.closed(s.state)), 0, [])
      else Blocked
  }

  function StepA<S>(a: Machine<S>, b: Machine<S>, p: Pair<S>): Option<Pair<S>> {
    match Step(a, p.a, p.ba, Stopped(b, p.b))
    case Blocked => None
    case Moved(side, taken, sent) => Some(Pair(side, p.b, p.ab + sent, p.ba[taken..]))
  }

  function StepB<S>(a: Machine<S>, b: Machine<S>, p: Pair<S>): Option<Pair<S>> {
    match Step(b, p.b, p.ab, Stopped(a, p.a))
    case Blocked => None
    case Moved(side, taken, sent) => Some(Pair(p.a, side, p.ab[taken..], p.ba + sent))
  }

  function Both<S>(a: Machine<S>, b: Machine<S>): Moves<Pair<S>> {
    Moves((p: Pair<S>) => StepA(a, b, p), (p: Pair<S>) => StepB(a, b, p))
  }

  /** What a party can do, it can still do after a move of the other one. */
  lemma StepsCommute<S>(a: Machine<S>, b: Machine<S>, p: Pair<S>)
    requires StepA(a, b, p).Some? && StepB(a, b, p).Some?
    ensures StepB(a, b, StepA(a, b, p).value).Some?
    ensures StepB(a, b, StepA(a, b, p).value) == StepA(a, b, StepB(a, b, p).value)
  {
    var moveA, moveB := Step(a, p.a, p.ba, Stopped(b, p.b)), Step(b, p.b, p.ab, Stopped(a, p.a));
    assert (p.ab + moveA.sent)[moveB.taken..] == p.ab[moveB.taken..] + moveA.sent;
    assert (p.ba + moveB.sent)[moveA.taken..] == p.ba[moveA.taken..] + moveB.sent;
  }

  lemma PartiesCommute<S(!new)>(a: Machine<S>, b: Machine<S>)
    ensures Commute(Both(a, b))
  {
    forall p: Pair<S>
      ensures CommuteAt(Both(a, b), p)
    {
      if StepA(a, b, p).Some? && StepB(a, b, p).Some? {
        StepsCommute(a, b, p);
      }
    }
  }

  // ---------------------------------------------------------------------
  // Whole actions
  // ---------------------------------------------------------------------

  /** A message that is partly sent is sent in the end. */
  lemma {:induction false} SendsRest<S>(a: Machine<S>, b: Machine<S>, p: Pair<S>, msg: seq<byte>)
    requires a.act(p.a.state) == Send(msg) && p.a.progress <= msg
    ensures Leads(Both(a, b), p, Pair(At(a.next(p.a.state, msg)), p.b, p.ab + msg[|p.a.progress|..], p.ba))
    decreases |msg| - |p.a.progress|
  {
    var m, k := Both(a, b), |p.a.progress|;
    var q := StepA(a, b, p).value;
    LeadsByOne(m, p, q);
    if k < |msg| {
      SendsRest(a, b, q, msg);
      assert p.ab + [msg[k]] + msg[k + 1..] == p.ab + msg[k..];
      LeadsOn(m, p, q, Pair(At(a.next(p.a.state, msg)), p.b, p.ab + msg[k..], p.ba));
    } else {
      assert p.a.progress == msg && p.ab + msg[k..] == p.ab + [];
    }
  }

  lemma Sends<S>(a: Machine<S>, b: Machine<S>, s: S, other: Side<S>, ab: seq<byte>, ba: seq<byte>, msg: seq<byte>)
    requires a.act(s) == Send(msg)
    ensures Leads(Both(a, b), Pair(At(s), other, ab, ba), Pair(At(a.next(s, msg)), other, ab + msg, ba))
  {
    SendsRest(a, b, Pair(At(s), other, ab, ba), msg);
    assert msg[0..] == msg;
  }

  /** A message that is partly received is received in the end, if all of it is there. */
  lemma {:induction false} ReceivesRest<S>(a: Machine<S>, b: Machine<S>, p: Pair<S>, msg: seq<byte>, behind: seq<byte>)
    requires a.act(p.a.state) == Recv(|msg|) && p.a.progress <= msg && p.ba == msg[|p.a.progress|..] + behind
    ensures Leads(Both(a, b), p, Pair(At(a.next(p.a.state, msg)), p.b, p.ab, behind))
    decreases |msg| - |p.a.progress|
  {
    var m, k := Both(a, b), |p.a.progress|;
    var q := StepA(a, b, p).value;
    LeadsByOne(m, p, q);
    assert p.ab + [] == p.ab;
    if k < |msg| {
      assert q.ba == msg[k + 1..] + behind;
      ReceivesRest(a, b, q, msg, behind);
      LeadsOn(m, p, q, Pair(At(a.next(p.a.state, msg)), p.b, p.ab, behind));
    } else {
      assert p.a.progress == msg && p.ba == behind;
    }
  }

  lemma Receives<S>(a: Machine<S>, b: Machine<S>, s: S, other: Side<S>, ab: seq<byte>, msg: seq<byte>, behind: seq<byte>)
    requires a.act(s) == Recv(|msg|)
    ensures Leads(Both(a, b), Pair(At(s), other, ab, msg + behind), Pair(At(a.next(s, msg)), other, ab, behind))
  {
    assert msg[0..] == msg;
    ReceivesRest(a, b, Pair(At(s), other, ab, msg + behind), msg, behind);
  }

  /** If the peer stops before all of it is there, the receive ends without it. */
  lemma {:induction false} Misses<S>(a: Machine<S>, b: Machine<S>, p: Pair<S>, n: nat)
    requires a.act(p.a.state) == Recv(n) && |p.a.progress| + |p.ba| < n && Stopped(b, p.b)
    ensures Leads(Both(a, b), p, Pair(At(a.closed(p.a.state)), p.b, p.ab, []))
    decreases |p.ba|
  {
    var q := StepA(a, b, p).value;
    LeadsByOne(Both(a, b), p, q);
    assert p.ab + [] == p.ab;
    if p.ba != [] {
      Misses(a, b, q, n);
      LeadsOn(Both(a, b), p, q, Pair(At(a.closed(p.a.state)), p.b, p.ab, []));
    }
  }

  // ---------------------------------------------------------------------
  // Seen from the other side
  // ---------------------------------------------------------------------

  function Swap<S>(p: Pair<S>): Pair<S> {
    Pair(p.b, p.a, p.ba, p.ab)
  }

  lemma StepSwapped<S>(a: Machine<S>, b: Machine<S>, p: Pair<S>)
    ensures Both(b, a).first(p) == match Both(a, b).second(Swap(p)) case None => None case Some(q) => Some(Swap(q))
    ensures Both(b, a).second(p) == match Both(a, b).first(Swap(p)) case None => None case Some(q) => Some(Swap(q))
  {
  }

  lemma {:induction false} ReachesSwapped<S(!new)>(m: Moves<Pair<S>>, w: Moves<Pair<S>>, n: nat, p: Pair<S>, q: Pair<S>)
    requires forall r :: SwappedAt(m, w, r)
    requires Reaches(m, n, p, q)
    ensures Reaches(w, n, Swap(p), Swap(q))
  {
    if n > 0 {
      assert SwappedAt(m, w, p);
      if m.first(p).Some? && Reaches(m, n - 1, m.first(p).value, q) {
        ReachesSwapped(m, w, n - 1, m.first(p).value, q);
      } else {
        ReachesSwapped(m, w, n - 1, m.second(p).value, q);
      }
    }
  }

  ghost predicate SwappedAt<S>(m: Moves<Pair<S>>, w: Moves<Pair<S>>, p: Pair<S>) {
    && (m.first(p).Some? ==> w.second(Swap(p)) == Some(Swap(m.first(p).value)))
    && (m.second(p).Some? ==> w.first(Swap(p)) == Some(Swap(m.second(p).value)))
  }

  lemma Swapped<S(!new)>(a: Machine<S>, b: Machine<S>, p: Pair<S>, q: Pair<S>)
    requires Leads(Both(b, a), Swap(p), Swap(q))
    ensures Leads(Both(a, b), p, q)
  {
    var m, w := Both(b, a), Both(a, b);
    var n: nat :| Reaches(m, n, Swap(p), Swap(q));
    forall r: Pair<S>
      ensures SwappedAt(m, w, r)
    {
      StepSwapped(a, b, r);
    }
    ReachesSwapped(m, w, n, Swap(p), Swap(q));
  }

  lemma SendsB<S(!new)>(a: Machine<S>, b: Machine<S>, s: S, other: Side<S>, ab: seq<byte>, ba: seq<byte>, msg: seq<byte>)
    requires b.act(s) == Send(msg)
    ensures Leads(Both(a, b), Pair(other, At(s), ab, ba), Pair(other, At(b.next(s, msg)), ab, ba + msg))
  {
    Sends(b, a, s, other, ba, ab, msg);
    Swapped(a, b, Pair(other, At(s), ab, ba), Pair(other, At(b.next(s, msg)), ab, ba + msg));
  }

  lemma ReceivesB<S(!new)>(a: Machine<S>, b: Machine<S>, s: S, other: Side<S>, ba: seq<byte>, msg: seq<byte>, behind: seq<byte>)
    requires b.act(s) == Recv(|msg|)
    ensures Leads(Both(a, b), Pair(other, At(s), msg + behind, ba), Pair(other, At(b.next(s, msg)), behind, ba))
  {
    Receives(b, a, s, other, ba, msg, behind);
    Swapped(a, b, Pair(other, At(s), msg + behind, ba), Pair(other, At(b.next(s, msg)), behind, ba));
  }

  lemma MissesB<S(!new)>(a: Machine<S>, b: Machine<S>, s: S, other: Side<S>, ab: seq<byte>, ba: seq<byte>, n: nat)
    requires b.act(s) == Recv(n) && |ab| < n && Stopped(a, other)
    ensures Leads(Both(a, b), Pair(other, At(s), ab, ba), Pair(other, At(b.closed(s)), [], ba))
  {
    Misses(b, a, Pair(At(s), other, ba, ab), n);
    Swapped(a, b, Pair(other, At(s), ab, ba), Pair(other, At(b.closed(s)), [], ba));
  }

  /** A message that is sent and then received. */
  lemma Tells<S(!new)>(a: Machine<S>, b: Machine<S>, s: S, t: S, ba: seq<byte>, msg: seq<byte>)
    requires a.act(s) == Send(msg) && b.act(t) == Recv(|msg|)
    ensures Leads(Both(a, b), Pair(At(s), At(t), [], ba), Pair(At(a.next(s, msg)), At(b.next(t, msg)), [], ba))
  {
    Sends(a, b, s, At(t), [], ba, msg);
    assert [] + msg == msg + [];
    ReceivesB(a, b, t, At(a.next(s, msg)), ba, msg, []);
    LeadsOn(Both(a, b), Pair(At(s), At(t), [], ba), Pair(At(a.next(s, msg)), At(t), msg + [], ba),
            Pair(At(a.next(s, msg)), At(b.next(t, msg)), [], ba));
  }

  lemma TellsB<S(!new)>(a: Machine<S>, b: Machine<S>, s: S, t: S, ab: seq<byte>, msg: seq<byte>)
    requires a.act(s) == Recv(|msg|) && b.act(t) == Send(msg)
    ensures Leads(Both(a, b), Pair(At(s), At(t), ab, []), Pair(At(a.next(s, msg)), At(b.next(t, msg)), ab, []))
  {
    Tells(b, a, t, s, ab, msg);
    Swapped(a, b, Pair(At(s), At(t), ab, []), Pair(At(a.next(s, msg)), At(b.next(t, msg)), ab, []));
  }
}
