// The loop of a CPU worker over one unit (CpuMiner::worker in src/mining/cpu_miner.cpp): the
// discipline its allocator calls keep, the best hash it publishes and the candidates it reports.
module CpuWorker {
  import opened Arith
  import opened ByteNumbers
  import opened Targets
  import opened HashOrders
  import opened BlockHeader
  import opened WorkUnits
  import WorkAllocation
  import HeaderScan
  import opened MiningRuns
  import MiningSafety

  /** What the loop does that others can see: a hash, a progress report, completion or release. */
  datatype Action =
    | Hashes(nonce: nat)
    | Publishes(next: nat, delta: nat, best: string, bestNonce: nat)
    | Finishes
    | GivesBack

  // ----- the discipline -----

  /** What the worker holds; Refused after an action it was not entitled to. */
  datatype Hand = Holding(unit: Held) | Closed | Refused

  predicate Allowed(h: Held, a: Action) {
    match a
    case Hashes(nonce) => nonce == h.cursor < h.nonceEnd && HasRoom(h)
    case Publishes(next, delta, _, _) => next == h.cursor && delta == h.pending > 0
    case Finishes => h.cursor >= h.nonceEnd && h.pending == 0
    case GivesBack => h.cursor < h.nonceEnd && h.pending == 0
  }

  function Moved(h: Held, a: Action): Hand {
    match a
    case Hashes(_) => Holding(OneFurther(h))
    case Publishes(_, _, _, _) => Holding(h.(pending := 0))
    case Finishes => Closed
    case GivesBack => Closed
  }

  /** What is left in the worker's hand after the actions. */
  function HandAfter(h: Held, actions: seq<Action>): Hand {
    if actions == [] then Holding(h)
    else
      match HandAfter(h, actions[..|actions| - 1])
      case Holding(g) => if Allowed(g, actions[|actions| - 1]) then Moved(g, actions[|actions| - 1]) else Refused
      case _ => Refused
  }

  /** The allocator step an action is. */
  function StepOf(w: nat, a: Action): Step {
    match a
    case Hashes(_) => Hash(w)
    case Publishes(_, _, best, bestNonce) => Publish(w, best, Some(bestNonce))
    case Finishes => Finish(w)
    case GivesBack => GiveBack(w)
  }

  /** An action that the worker's own hand allows is a step every state with that hand can take,
      whatever the other workers are doing, and it moves the hand as the worker thinks. */
  lemma AllowedIsEnabled(s: Sys, w: nat, a: Action)
    requires !s.exhausted && w in s.held && Allowed(s.held[w], a) && CounterFits(s.alloc)
    ensures Enabled(s, StepOf(w, a))
    ensures var t := After(s, StepOf(w, a));
      (w in t.held <==> Moved(s.held[w], a).Holding?)
      && (Moved(s.held[w], a).Holding? ==> t.held[w] == Moved(s.held[w], a).unit)
  {}

  /** What a CPU worker takes is in its hand as the loop expects it. */
  lemma TakenIsHeld(s: Sys, w: nat)
    requires Enabled(s, Take(w, Cpu))
    ensures var unit := WorkAllocation.Acquire(s.alloc, Cpu).1.value;
      var t := After(s, Take(w, Cpu));
      w in t.held && t.held[w] == Taken(unit)
  {}

  // ----- the worker among others -----

  predicate IsBy(step: Step, w: nat) {
    match step
    case Take(x, _) => x == w
    case Hash(x) => x == w
    case Publish(x, _, _) => x == w
    case Finish(x) => x == w
    case GiveBack(x) => x == w
    case _ => false
  }

  /** The steps of a run that are the worker's own. */
  function Own(steps: seq<Step>, w: nat): seq<Step> {
    if steps == [] then [] else (if IsBy(steps[0], w) then [steps[0]] else []) + Own(steps[1..], w)
  }

  function StepsOf(w: nat, actions: seq<Action>): seq<Step> {
    if actions == [] then [] else [StepOf(w, actions[0])] + StepsOf(w, actions[1..])
  }

  /** Short of a crash, what the others do leaves a worker's hand alone. */
  lemma OthersLeaveHand(s: Sys, step: Step, w: nat)
    requires Enabled(s, step) && !step.Crash? && !IsBy(step, w)
    ensures w in After(s, step).held <==> w in s.held
    ensures w in s.held ==> After(s, step).held[w] == s.held[w]
  {}

  /** The first action, seen from the front. */
  lemma {:induction false} HandFromFront(h: Held, actions: seq<Action>)
    requires actions != [] && HandAfter(h, actions) != Refused
    ensures Allowed(h, actions[0])
    ensures match Moved(h, actions[0])
            case Holding(g) => HandAfter(g, actions[1..]) == HandAfter(h, actions)
            case _ => actions[1..] == [] && HandAfter(h, actions) == Closed
  {
    hide Allowed, Moved;
    var n := |actions|;
    if n > 1 {
      var before := actions[..n - 1];
      HandFromFront(h, before);
      assert before[0] == actions[0] && before[1..] == actions[1..][..n - 2];
    } else {
      assert actions[..0] == [] && actions[1..] == [];
    }
  }

  /** The hand a worker is left with in state t after its actions. */
  ghost predicate Shows(t: Sys, w: nat, hand: Hand) {
    if hand.Holding? then w in t.held && t.held[w] == hand.unit else w !in t.held
  }

  /** However a worker's actions are interleaved with the steps of the others, it is left with the
      hand its own actions give it. */
  lemma {:induction false} HandInRun(s: Sys, steps: seq<Step>, w: nat, actions: seq<Action>)
    requires Runs(s, steps) && MiningSafety.NoCrash(steps) && w in s.held && Own(steps, w) == StepsOf(w, actions)
    requires HandAfter(s.held[w], actions) != Refused && StayOpen(s, steps)
    ensures Shows(Final(s, steps), w, HandAfter(s.held[w], actions))
    decreases |steps|
  {
    hide After, Enabled, Allowed, Moved;
    if steps != [] {
      var t := After(s, steps[0]);
      assert !steps[0].Crash? && MiningSafety.NoCrash(steps[1..]);
      if IsBy(steps[0], w) {
        assert Own(steps, w)[0] == steps[0] && Own(steps, w)[1..] == Own(steps[1..], w);
        assert actions != [] && StepsOf(w, actions)[0] == StepOf(w, actions[0]);
        assert StepsOf(w, actions)[1..] == StepsOf(w, actions[1..]);
        HandFromFront(s.held[w], actions);
        AllowedIsEnabled(s, w, actions[0]);
        if w in t.held {
          HandInRun(t, steps[1..], w, actions[1..]);
        } else {
          NotInRun(t, steps[1..], w);
        }
      } else {
        OthersLeaveHand(s, steps[0], w);
        HandInRun(t, steps[1..], w, actions);
      }
    }
  }

  /** The counter stays below its 64-bit limit before every step of the run, and nothing fails. */
  ghost predicate StayOpen(s: Sys, steps: seq<Step>)
    requires Runs(s, steps)
    decreases |steps|
  {
    !s.exhausted && CounterFits(s.alloc) && (steps != [] ==> StayOpen(After(s, steps[0]), steps[1..]))
  }

  lemma {:induction false} NotInRun(s: Sys, steps: seq<Step>, w: nat)
    requires Runs(s, steps) && MiningSafety.NoCrash(steps) && w !in s.held && Own(steps, w) == []
    ensures w !in Final(s, steps).held
    decreases |steps|
  {
    hide After, Enabled;
    if steps != [] {
      assert !steps[0].Crash? && !IsBy(steps[0], w) && MiningSafety.NoCrash(steps[1..]);
      OthersLeaveHand(s, steps[0], w);
      NotInRun(After(s, steps[0]), steps[1..], w);
    }
  }

  lemma {:induction false} StaysOpenAtEnd(s: Sys, steps: seq<Step>)
    requires Runs(s, steps) && StayOpen(s, steps)
    ensures !Final(s, steps).exhausted && CounterFits(Final(s, steps).alloc)
    decreases |steps|
  {
    hide After, Enabled, CounterFits;
    if steps != [] { StaysOpenAtEnd(After(s, steps[0]), steps[1..]); }
  }

  /** A worker can always go on: wherever a run has got with its first actions, whatever the others did
      in between, its next action is a step of the run. */
  lemma WorkerGoesOn(s: Sys, steps: seq<Step>, w: nat, actions: seq<Action>, n: nat)
    requires Runs(s, steps) && MiningSafety.NoCrash(steps) && StayOpen(s, steps)
    requires w in s.held && HandAfter(s.held[w], actions) != Refused
    requires n < |actions| && Own(steps, w) == StepsOf(w, actions[..n])
    ensures Enabled(Final(s, steps), StepOf(w, actions[n]))
  {
    hide After, Enabled, Allowed, Moved;
    PrefixIsAllowed(s.held[w], actions, n);
    HandInRun(s, steps, w, actions[..n]);
    StaysOpenAtEnd(s, steps);
    AllowedIsEnabled(Final(s, steps), w, actions[n]);
  }

  lemma {:induction false} PrefixIsAllowed(h: Held, actions: seq<Action>, n: nat)
    requires n < |actions| && HandAfter(h, actions) != Refused
    ensures HandAfter(h, actions[..n]).Holding? && Allowed(HandAfter(h, actions[..n]).unit, actions[n])
    decreases |actions|
  {
    hide Allowed, Moved;
    var before := actions[..|actions| - 1];
    if n < |before| {
      assert before[..n] == actions[..n] && before[n] == actions[n];
      PrefixIsAllowed(h, before, n);
    }
  }

  // ----- what is published -----

  const WORST: seq<Byte> := [
    255, 255, 255, 255, 255, 255, 255, 255, 255, 255, 255, 255, 255, 255, 255, 255,
    255, 255, 255, 255, 255, 255, 255, 255, 255, 255, 255, 255, 255, 255, 255, 255]

  /** The least digest of [lo, n) and the nonce it belongs to; before any hash, the worst digest. */
  ghost predicate BestSoFar(f: nat -> Digest, lo: nat, n: nat, best: Digest, bestNonce: nat) {
    && (forall m :: lo <= m < n ==> LittleEndian(best) <= LittleEndian(f(m)))
    && (best == WORST || (lo <= bestNonce < n && best == f(bestNonce)))
    && (lo < n ==> exists m :: lo <= m < n && best == f(m))
    && (lo == n ==> best == WORST)
  }

  /** No digest is above the worst one, so that the first hash is a best. */
  lemma WorstIsLargest(d: Digest)
    ensures LittleEndian(d) <= LittleEndian(WORST)
    ensures LittleEndian(d) == LittleEndian(WORST) <==> d == WORST
  {
    hide BigEndian, Pow;
    AllOnes(Reversed(WORST));
    BigEndianBound(Reversed(d));
    if LittleEndian(d) == LittleEndian(WORST) {
      BigEndianInjective(Reversed(d), Reversed(WORST));
      assert d == Reversed(Reversed(d)) == Reversed(Reversed(WORST)) == WORST;
    }
  }

  lemma KeepsBest(f: nat -> Digest, lo: nat, n: nat, best: Digest, bestNonce: nat)
    requires lo <= n && BestSoFar(f, lo, n, best, bestNonce)
    ensures LittleEndian(f(n)) < LittleEndian(best) ==> BestSoFar(f, lo, n + 1, f(n), n)
    ensures LittleEndian(f(n)) >= LittleEndian(best) ==> BestSoFar(f, lo, n + 1, best, bestNonce)
  {
    hide BigEndian, LittleEndian;
    if LittleEndian(f(n)) < LittleEndian(best) {
      assert BestSoFar(f, lo, n + 1, f(n), n);
    } else {
      if lo == n { WorstIsLargest(f(n)); assert best == f(n); }
      assert exists m :: lo <= m < n + 1 && best == f(m);
    }
  }

  /** A report covers at most a batch and shows the best of everything hashed before its cursor. */
  ghost predicate HonestReport(f: nat -> Digest, lo: nat, a: Action) {
    a.Publishes? ==>
      lo < a.next && a.delta <= BATCH
      && exists best: Digest :: BestSoFar(f, lo, a.next, best, a.bestNonce) && a.best == Hex(LittleEndian(best), 64)
  }

  // ----- what the handler receives -----

  /** Handed over after `at` actions. `share` marks a digest that met a target, the others are personal bests. */
  datatype Candidate = Candidate(at: nat, nonce: nat, header: Header, digest: Digest, share: bool, network: bool)

  datatype Hit = Hit(nonce: nat, digest: Digest, network: bool)

  /** The digests of [lo, hi) that meet the share or the network target while the job is current. */
  function Found(f: nat -> Digest, lo: nat, hi: nat, share: nat, network: nat, current: nat -> bool): seq<Hit>
    decreases hi
  {
    if hi <= lo then []
    else
      var d := f(hi - 1);
      Found(f, lo, hi - 1, share, network, current)
        + (if (LittleEndian(d) <= share || LittleEndian(d) <= network) && current(hi - 1)
           then [Hit(hi - 1, d, LittleEndian(d) <= network)] else [])
  }

  function Shares(candidates: seq<Candidate>): seq<Hit> {
    if candidates == [] then []
    else
      var c := candidates[|candidates| - 1];
      Shares(candidates[..|candidates| - 1]) + if c.share then [Hit(c.nonce, c.digest, c.network)] else []
  }

  datatype Record = Record(text: string, nonce: nat)

  /** The personal bests among the candidates, as their texts and nonces. */
  function Bests(candidates: seq<Candidate>): seq<Record> {
    if candidates == [] then []
    else
      var c := candidates[|candidates| - 1];
      Bests(candidates[..|candidates| - 1]) + if c.share then [] else [Record(Hex(LittleEndian(c.digest), 64), c.nonce)]
  }

  /** The text of the last report, empty before the first. */
  function LastText(actions: seq<Action>): string {
    if actions == [] then ""
    else if actions[|actions| - 1].Publishes? then actions[|actions| - 1].best
    else LastText(actions[..|actions| - 1])
  }

  /** The reports whose text differs from that of the report before. */
  function NewTexts(actions: seq<Action>): seq<Record> {
    if actions == [] then []
    else
      var before, a := actions[..|actions| - 1], actions[|actions| - 1];
      NewTexts(before) + if a.Publishes? && a.best != LastText(before) then [Record(a.best, a.bestNonce)] else []
  }

  lemma OneMoreCandidate(candidates: seq<Candidate>, c: Candidate)
    ensures Shares(candidates + [c]) == Shares(candidates) + if c.share then [Hit(c.nonce, c.digest, c.network)] else []
    ensures Bests(candidates + [c]) == Bests(candidates)
      + if c.share then [] else [Record(Hex(LittleEndian(c.digest), 64), c.nonce)]
  {
    assert (candidates + [c])[..|candidates + [c]| - 1] == candidates;
  }

  /** A candidate carries the header of its nonce and a true network flag, and is handed over right after
      its hash or, as a personal best, right after the report that shows it. */
  predicate Proper(c: Candidate, actions: seq<Action>, template: Header, network: nat) {
    && (c.network <==> LittleEndian(c.digest) <= network)
    && c.header == WithNonce(template, c.nonce)
    && 0 < c.at <= |actions|
    && var a := actions[c.at - 1];
      if c.share then a == Hashes(c.nonce)
      else a.Publishes? && a.bestNonce == c.nonce && a.best == Hex(LittleEndian(c.digest), 64)
  }

  /** All candidates are proper, and they come one after the other. */
  ghost predicate InOrder(candidates: seq<Candidate>, actions: seq<Action>, template: Header, network: nat) {
    && (forall i :: 0 <= i < |candidates| ==> Proper(candidates[i], actions, template, network))
    && forall i, j :: 0 <= i < j < |candidates| ==> candidates[i].at < candidates[j].at
  }

  ghost predicate AllBefore(candidates: seq<Candidate>, at: nat) {
    forall i :: 0 <= i < |candidates| ==> candidates[i].at < at
  }

  lemma OrderGrows(candidates: seq<Candidate>, actions: seq<Action>, a: Action, template: Header, network: nat)
    requires InOrder(candidates, actions, template, network)
    ensures InOrder(candidates, actions + [a], template, network) && AllBefore(candidates, |actions| + 1)
  {
    forall i | 0 <= i < |candidates|
      ensures Proper(candidates[i], actions + [a], template, network) && candidates[i].at <= |actions|
    {
      assert Proper(candidates[i], actions, template, network);
    }
  }

  lemma OrderAdds(candidates: seq<Candidate>, c: Candidate, actions: seq<Action>, template: Header, network: nat)
    requires InOrder(candidates, actions, template, network) && Proper(c, actions, template, network)
    requires AllBefore(candidates, c.at)
    ensures InOrder(candidates + [c], actions, template, network)
  {
    hide Proper;
  }

  // ----- the loop -----

  function Taken(u: WorkUnit): Held { Held(u.id, Cpu, u.extranonce2, u.nonceEnd, u.nonceNext, 0) }

  /** The actions so far were allowed and honest, and leave the worker with the hand. */
  ghost predicate Log(f: nat -> Digest, unit: WorkUnit, actions: seq<Action>, hand: Hand) {
    && HandAfter(Taken(unit), actions) == hand
    && forall i :: 0 <= i < |actions| ==> HonestReport(f, unit.nonceNext, actions[i])
  }

  /** The personal bests handed over are the new texts of the reports. */
  ghost predicate Told(actions: seq<Action>, candidates: seq<Candidate>, reported: string) {
    Bests(candidates) == NewTexts(actions) && reported == LastText(actions)
  }

  lemma LogMore(f: nat -> Digest, unit: WorkUnit, actions: seq<Action>, g: Held, a: Action)
    requires Log(f, unit, actions, Holding(g)) && Allowed(g, a) && HonestReport(f, unit.nonceNext, a)
    ensures Log(f, unit, actions + [a], Moved(g, a))
    ensures LastText(actions + [a]) == if a.Publishes? then a.best else LastText(actions)
    ensures NewTexts(actions + [a]) == NewTexts(actions)
      + if a.Publishes? && a.best != LastText(actions) then [Record(a.best, a.bestNonce)] else []
  {
    hide HonestReport, Moved, Allowed;
    assert (actions + [a])[..|actions + [a]| - 1] == actions;
  }

  /** An action that reports nothing. */
  lemma LogSilent(f: nat -> Digest, unit: WorkUnit, actions: seq<Action>, g: Held, a: Action)
    requires Log(f, unit, actions, Holding(g)) && Allowed(g, a) && !a.Publishes?
    ensures Log(f, unit, actions + [a], Moved(g, a))
    ensures LastText(actions + [a]) == LastText(actions) && NewTexts(actions + [a]) == NewTexts(actions)
  {
    hide Log, Moved, Allowed;
    LogMore(f, unit, actions, g, a);
  }

  /** Publishing the progress; the best then goes to the handler unless its text was the last one reported. */
  method Report(ghost f: nat -> Digest, ghost unit: WorkUnit, ghost g: Held, next: nat, pending: nat,
                best: Digest, bestNonce: nat, template: Header, network: seq<Byte>, actions: seq<Action>,
                candidates: seq<Candidate>, reported: string)
    returns (actions': seq<Action>, candidates': seq<Candidate>, reported': string)
    requires IsTarget(network) && Log(f, unit, actions, Holding(g)) && Told(actions, candidates, reported)
    requires g.cursor == next && g.pending == pending && 0 < pending <= BATCH
    requires unit.nonceNext < next && BestSoFar(f, unit.nonceNext, next, best, bestNonce)
    requires InOrder(candidates, actions, template, BigEndian(network))
    ensures Log(f, unit, actions', Holding(g.(pending := 0)))
    ensures Shares(candidates') == Shares(candidates) && Told(actions', candidates', reported')
    ensures InOrder(candidates', actions', template, BigEndian(network))
    ensures |actions'| == |actions| + 1 && actions'[..|actions|] == actions
    ensures actions'[|actions|].Publishes? && actions'[|actions|].delta == pending && actions'[|actions|].next == next
  {
    hide BigEndian, Hex, BestSoFar, Log, Bests, Shares, NewTexts, LastText, InOrder, AllBefore, WithNonce;
    var text := BitcoinHashHex(best);
    var report := Publishes(next, pending, text, bestNonce);
    LogMore(f, unit, actions, g, report);
    OrderGrows(candidates, actions, report, template, BigEndian(network));
    actions', candidates', reported' := actions + [report], candidates, text;
    if text != reported {
      var meetsNetwork := HashMeetsTarget(best, network);
      var c := Candidate(|actions'|, bestNonce, WithNonce(template, bestNonce), best, false, meetsNetwork);
      OneMoreCandidate(candidates, c);
      OrderAdds(candidates, c, actions', template, BigEndian(network));
      candidates' := candidates + [c];
    }
  }

  /** The candidate of a digest that meets a target, right after it was hashed. */
  method HandOver(digest: Digest, nonce: nat, share: seq<Byte>, network: seq<Byte>, current: bool,
                  ghost template: Header, header: Header, ghost actions: seq<Action>, at: nat,
                  candidates: seq<Candidate>)
    returns (candidates': seq<Candidate>)
    requires IsTarget(share) && IsTarget(network) && header == WithNonce(template, nonce)
    requires InOrder(candidates, actions, template, BigEndian(network)) && AllBefore(candidates, at)
    requires at == |actions| > 0 && actions[at - 1] == Hashes(nonce)
    ensures Bests(candidates') == Bests(candidates) && InOrder(candidates', actions, template, BigEndian(network))
    ensures Shares(candidates') == Shares(candidates)
      + if (LittleEndian(digest) <= BigEndian(share) || LittleEndian(digest) <= BigEndian(network)) && current
        then [Hit(nonce, digest, LittleEndian(digest) <= BigEndian(network))] else []
  {
    hide BigEndian, Bests, Shares, InOrder, AllBefore, WithNonce;
    candidates' := candidates;
    var meetsShare := HashMeetsTarget(digest, share);
    var meetsNetwork := HashMeetsTarget(digest, network);
    if (meetsShare || meetsNetwork) && current {
      var c := Candidate(at, nonce, header, digest, true, meetsNetwork);
      OneMoreCandidate(candidates, c);
      OrderAdds(candidates, c, actions, template, BigEndian(network));
      candidates' := candidates + [c];
    }
  }

  /** Setting another nonce undoes the one before. */
  lemma NonceReplaced(h: Header, a: nat, b: nat)
    ensures WithNonce(WithNonce(h, a), b) == WithNonce(h, b)
  {}

  /** The nonces before which the worker looks for an interruption. */
  predicate LooksAt(lo: nat, n: nat) { lo <= n && (n - lo) % 4096 == 0 }

  /** No interruption was there to see before n. */
  predicate NotSeen(interrupted: nat -> bool, lo: nat, n: nat) {
    forall m: nat :: lo <= m < n && LooksAt(lo, m) ==> !interrupted(m)
  }

  /** The worker stops at `reached`: at the end, or at the first interruption it sees. */
  predicate Attentive(interrupted: nat -> bool, lo: nat, reached: nat, end: nat) {
    NotSeen(interrupted, lo, reached) && (reached < end ==> LooksAt(lo, reached) && interrupted(reached))
  }

  /** Once an interruption lasts, fewer than 4096 further nonces are hashed. */
  lemma StopsSoon(interrupted: nat -> bool, lo: nat, reached: nat, end: nat, n: nat)
    requires lo <= reached <= end && Attentive(interrupted, lo, reached, end)
    requires lo <= n && forall m: nat :: n <= m ==> interrupted(m)
    ensures reached < n + 4096
  {
    if reached >= n + 4096 {
      var m := n + (4096 - (n - lo) % 4096) % 4096;
      assert LooksAt(lo, m) && lo <= m < reached;
    }
  }

  /** Every report so far covers a full batch. */
  predicate FullBatches(actions: seq<Action>) {
    forall i :: 0 <= i < |actions| && actions[i].Publishes? ==> actions[i].delta == BATCH
  }

  lemma FullSoFar(actions: seq<Action>, a: Action)
    requires FullBatches(actions) && (a.Publishes? ==> a.delta == BATCH)
    ensures FullBatches(actions + [a])
  {}

  /** Passing a nonce: the pending hashes keep in step with the places where the worker looks. */
  lemma PassNonce(interrupted: nat -> bool, lo: nat, n: nat, pending: nat)
    requires lo <= n && NotSeen(interrupted, lo, n) && pending % 4096 == (n - lo) % 4096
    requires !(pending % 4096 == 0 && interrupted(n))
    ensures NotSeen(interrupted, lo, n + 1) && (pending + 1) % 4096 == (n + 1 - lo) % 4096
    ensures pending + 1 == BATCH ==> (n + 1 - lo) % 4096 == 0
  {}

  lemma NothingSeen(interrupted: nat -> bool, lo: nat, n: nat, end: nat, pending: nat)
    requires lo <= n <= end && NotSeen(interrupted, lo, n) && pending % 4096 == (n - lo) % 4096
    requires n == end || (pending % 4096 == 0 && interrupted(n))
    ensures Attentive(interrupted, lo, n, end)
  {}

  /** Every report so far covers a full batch, except one right before the last action. */
  predicate BatchesTo(actions: seq<Action>, reached: nat) {
    forall i :: 0 <= i < |actions| && actions[i].Publishes? ==>
      actions[i].delta == BATCH || (actions[i].next == reached && i == |actions| - 2)
  }

  /** Leaving the loop: the rest is published, and the unit completed at its end or given back before it. */
  method LeaveUnit(ghost f: nat -> Digest, unit: WorkUnit, ghost h: Held, nonce: nat, pending: nat,
                   best: Digest, bestNonce: nat, template: Header, network: seq<Byte>, actions: seq<Action>,
                   candidates: seq<Candidate>, reported: string)
    returns (actions': seq<Action>, candidates': seq<Candidate>)
    requires IsTarget(network) && Log(f, unit, actions, Holding(h)) && Told(actions, candidates, reported)
    requires h == Held(unit.id, Cpu, unit.extranonce2, unit.nonceEnd, nonce, pending) && pending < BATCH
    requires unit.nonceNext <= nonce <= unit.nonceEnd && (pending > 0 ==> unit.nonceNext < nonce)
    requires BestSoFar(f, unit.nonceNext, nonce, best, bestNonce) && FullBatches(actions)
    requires InOrder(candidates, actions, template, BigEndian(network))
    ensures Log(f, unit, actions', Closed) && actions' != []
    ensures actions'[|actions'| - 1] == if nonce == unit.nonceEnd then Finishes else GivesBack
    ensures Shares(candidates') == Shares(candidates) && Bests(candidates') == NewTexts(actions')
    ensures InOrder(candidates', actions', template, BigEndian(network)) && BatchesTo(actions', nonce)
  {
    hide BigEndian, LittleEndian, BestSoFar, Log, Bests, Shares, NewTexts, LastText, InOrder, AllBefore, WithNonce;
    actions', candidates' := actions, candidates;
    var reported' := reported;
    ghost var g := h;
    if pending != 0 {
      actions', candidates', reported' :=
        Report(f, unit, h, nonce, pending, best, bestNonce, template, network, actions, candidates, reported);
      g := g.(pending := 0);
    }
    var last := if nonce >= unit.nonceEnd then Finishes else GivesBack;
    LogSilent(f, unit, actions', g, last);
    OrderGrows(candidates', actions', last, template, BigEndian(network));
    actions' := actions' + [last];
  }

  /** The loop over one unit. It hashes its nonces in order, publishes at most every 65536 hashes and
      once at the end, completes the unit exactly when it reached the end and gives it back otherwise. It
      looks for an interruption before every 4096th nonce, and stops exactly at the first one it sees.
      The handler receives exactly the digests that meet a target and, as personal bests, exactly the
      reports with a new text, each with its header and in the order of the loop. `interrupted` and
      `current` are what the stop flag and the job generation show when they are read. */
  method MineUnit(hash: Header -> Digest, template: Header, unit: WorkUnit, share: seq<Byte>, network: seq<Byte>,
                  interrupted: nat -> bool, current: nat -> bool)
    returns (actions: seq<Action>, candidates: seq<Candidate>, reached: nat)
    requires IsTarget(share) && IsTarget(network) && unit.nonceNext <= unit.nonceEnd
    ensures HandAfter(Taken(unit), actions) == Closed && unit.nonceNext <= reached <= unit.nonceEnd
    ensures actions != [] && actions[|actions| - 1] == if reached == unit.nonceEnd then Finishes else GivesBack
    ensures forall i :: 0 <= i < |actions| ==>
      HonestReport(HeaderScan.Family(hash, template), unit.nonceNext, actions[i])
    ensures Shares(candidates)
      == Found(HeaderScan.Family(hash, template), unit.nonceNext, reached, BigEndian(share), BigEndian(network),
        current)
    ensures Bests(candidates) == NewTexts(actions) && InOrder(candidates, actions, template, BigEndian(network))
    ensures Attentive(interrupted, unit.nonceNext, reached, unit.nonceEnd)
    ensures BatchesTo(actions, reached)
  {
    hide BigEndian, LittleEndian, BestSoFar, HandAfter, HonestReport, Bests, Shares, NewTexts, LastText, InOrder,
      AllBefore, WithNonce, BatchesTo, FullBatches, NotSeen, Attentive, Found;
    ghost var f := HeaderScan.Family(hash, template);
    var header := template;
    var best: Digest := WORST;
    var bestNonce := unit.nonceNext % BASE;
    var pending: nat := 0;
    var nonce := unit.nonceNext;
    var reported := "";
    actions, candidates := [], [];
    ghost var h := Taken(unit);
    StartOfUnit(f, unit, best, bestNonce, template, BigEndian(network));
    StartOfLoop(interrupted, unit.nonceNext);
    FoundNothing(f, unit.nonceNext, BigEndian(share), BigEndian(network), current);
    while nonce < unit.nonceEnd
      invariant unit.nonceNext <= nonce <= unit.nonceEnd && 0 <= bestNonce && pending < BATCH
      invariant pending > 0 ==> unit.nonceNext < nonce
      invariant h == Held(unit.id, Cpu, unit.extranonce2, unit.nonceEnd, nonce, pending)
      invariant Log(f, unit, actions, Holding(h)) && BestSoFar(f, unit.nonceNext, nonce, best, bestNonce)
      invariant Shares(candidates) == Found(f, unit.nonceNext, nonce, BigEndian(share), BigEndian(network), current)
      invariant Told(actions, candidates, reported) && InOrder(candidates, actions, template, BigEndian(network))
      invariant WithNonce(header, nonce) == WithNonce(template, nonce)
      invariant pending % 4096 == (nonce - unit.nonceNext) % 4096
      invariant NotSeen(interrupted, unit.nonceNext, nonce)
      invariant FullBatches(actions)
    {
      hide Log;
      if pending % 4096 == 0 && interrupted(nonce) { break; }
      FoundNext(f, unit.nonceNext, nonce, BigEndian(share), BigEndian(network), current);
      PassNonce(interrupted, unit.nonceNext, nonce, pending);
      NonceReplaced(template, nonce, nonce + 1);
      header := WithNonce(header, nonce);
      var digest := hash(header);
      LogSilent(f, unit, actions, h, Hashes(nonce));
      OrderGrows(candidates, actions, Hashes(nonce), template, BigEndian(network));
      FullSoFar(actions, Hashes(nonce));
      actions := actions + [Hashes(nonce)];
      pending := pending + 1;
      h := OneFurther(h);
      KeepsBest(f, unit.nonceNext, nonce, best, bestNonce);
      var better := BetterHash(digest, best);
      if better { best, bestNonce := digest, nonce; }
      candidates := HandOver(digest, nonce, share, network, current(nonce), template, header, actions, |actions|,
        candidates);
      if pending >= BATCH {
        ghost var before := actions;
        actions, candidates, reported :=
          Report(f, unit, h, nonce + 1, pending, best, bestNonce, template, network, actions, candidates,
          reported);
        assert actions == before + [actions[|before|]];
        FullSoFar(before, actions[|before|]);
        pending := 0;
        h := h.(pending := 0);
      }
      nonce := nonce + 1;
    }
    NothingSeen(interrupted, unit.nonceNext, nonce, unit.nonceEnd, pending);
    actions, candidates := LeaveUnit(f, unit, h, nonce, pending, best, bestNonce, template, network, actions,
      candidates, reported);
    reached := nonce;
  }

  lemma FoundNothing(f: nat -> Digest, lo: nat, share: nat, network: nat, current: nat -> bool)
    ensures Found(f, lo, lo, share, network, current) == []
  {}

  lemma FoundNext(f: nat -> Digest, lo: nat, n: nat, share: nat, network: nat, current: nat -> bool)
    requires lo <= n
    ensures Found(f, lo, n + 1, share, network, current) == Found(f, lo, n, share, network, current)
      + if (LittleEndian(f(n)) <= share || LittleEndian(f(n)) <= network) && current(n)
        then [Hit(n, f(n), LittleEndian(f(n)) <= network)] else []
  {}

  lemma StartOfLoop(interrupted: nat -> bool, lo: nat)
    ensures NotSeen(interrupted, lo, lo) && FullBatches([])
  {}

  lemma StartOfUnit(f: nat -> Digest, unit: WorkUnit, best: Digest, bestNonce: nat, template: Header, network: nat)
    requires best == WORST
    ensures Told([], [], "") && Shares([]) == [] && InOrder([], [], template, network)
    ensures Log(f, unit, [], Holding(Taken(unit))) && BestSoFar(f, unit.nonceNext, unit.nonceNext, best, bestNonce)
  {}
}
