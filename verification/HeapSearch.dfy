/**
 Which block serves a request, and what the best-bet hint becomes: the search goes
 through the list from the hinted block, or from the first, once round if need be, and
 remembers the block with the most unused memory it has seen.
 */
module HeapSearches {
  import opened HeapModel
  import opened HeapStates

  /** What the counters of a block's header show as unused. */
  ghost function Unused(b: Block): int {
    BlockSize(b) - Usage(b)
  }

  // ----- The hint -----

  /** A hint, and the unused memory by which it was chosen. */
  datatype Bet = Bet(addr: nat, unused: int)

  ghost function Better(b: Block, bet: Bet): Bet {
    if bet.unused < Unused(b) then Bet(b.addr, Unused(b)) else bet
  }

  /** The hint after a look at blocks `j .. k - 1`. */
  ghost function Best(blocks: seq<Block>, j: nat, k: nat, bet: Bet): Bet
    requires j <= k <= |blocks|
  {
    if j == k then bet else Better(blocks[k - 1], Best(blocks, j, k - 1, bet))
  }

  /** Block `m` is the first of blocks `j .. k - 1` with the most unused memory, and beats `bet`. */
  ghost predicate Champion(blocks: seq<Block>, j: nat, k: nat, bet: Bet, m: nat) {
    && j <= m < k <= |blocks| && bet.unused < Unused(blocks[m])
    && (forall i | j <= i < k :: Unused(blocks[i]) <= Unused(blocks[m]))
    && (forall i | j <= i < m :: Unused(blocks[i]) < Unused(blocks[m]))
  }

  /** The hint is the first block with the most unused memory, unless the old one is as good as any. */
  lemma {:induction false} BestIsChampion(blocks: seq<Block>, j: nat, k: nat, bet: Bet) returns (m: nat)
    requires j <= k <= |blocks|
    ensures var best := Best(blocks, j, k, bet);
            if forall i | j <= i < k :: Unused(blocks[i]) <= bet.unused then
              best == bet
            else
              Champion(blocks, j, k, bet, m) && best == Bet(blocks[m].addr, Unused(blocks[m]))
  {
    m := j;
    if j < k {
      m := BestIsChampion(blocks, j, k - 1, bet);
      var last := Unused(blocks[k - 1]);
      if Best(blocks, j, k - 1, bet).unused < last {
        m := k - 1;
      }
    }
  }

  // ----- The way of the search -----

  /** How a search begins: at block `start`, by the hint or not, and with this bet. */
  datatype Plan = Plan(start: nat, byHint: bool, bet: Bet)

  ghost predicate Hinted(blocks: seq<Block>, hint: nat, j: nat) {
    j < |blocks| && blocks[j].addr == hint
  }

  /** It begins at the hinted block if that has more than `need` bytes unused, else at the first. */
  ghost predicate Begins(blocks: seq<Block>, hint: nat, need: nat, plan: Plan) {
    if hint == 0 then
      plan == Plan(0, false, Bet(0, 0))
    else
      exists j: nat :: Hinted(blocks, hint, j) &&
        plan == (if Unused(blocks[j]) > need then Plan(j, true, Bet(hint, Unused(blocks[j])))
                 else Plan(0, false, Bet(hint, Unused(blocks[j]))))
  }

  /** Block `j` comes before block `i` on the way from block `start` to the end and on from the first. */
  predicate Earlier(start: nat, j: nat, i: nat) {
    if start <= i then start <= j < i else start <= j || j < i
  }

  /** Block `i` serves the request: no block before it on the way has room. */
  ghost predicate Serves(blocks: seq<Block>, start: nat, i: nat, need: nat) {
    i < |blocks| ==> forall j: nat | j < |blocks| && Earlier(start, j, i) :: !HasRoom(blocks[j], need)
  }

  /** What is known at block `at`, in the first round or in the second. */
  ghost predicate OnTheWay(blocks: seq<Block>, plan: Plan, need: nat, inFirst: bool, at: nat, bet: Bet) {
    && at <= |blocks| && plan.start <= |blocks| && (!plan.byHint ==> plan.start == 0)
    && (inFirst ==> plan.byHint && plan.start <= at)
    && (at == |blocks| ==> !inFirst && LooksAtNew(blocks, need))
    && (forall j | (if inFirst then plan.start else 0) <= j < at :: !HasRoom(blocks[j], need))
    && (plan.byHint && !inFirst ==> forall j | plan.start <= j < |blocks| :: !HasRoom(blocks[j], need))
    && bet == BetAt(blocks, plan, inFirst, at)
  }

  /** The hint once the blocks before `at` have been looked at. */
  ghost function BetAt(blocks: seq<Block>, plan: Plan, inFirst: bool, at: nat): Bet
    requires at <= |blocks| && plan.start <= |blocks|
  {
    if inFirst || !plan.byHint then
      if plan.start <= at then Best(blocks, plan.start, at, plan.bet) else plan.bet
    else
      Best(blocks, 0, at, Best(blocks, plan.start, |blocks|, plan.bet))
  }

  /** The hint after a search that ended in block `i`, or after one that went all the way. */
  ghost function BetAfter(blocks: seq<Block>, plan: Plan, i: nat): Bet
    requires plan.start <= |blocks|
  {
    if i < |blocks| then BetAt(blocks, plan, plan.start <= i, i + 1) else BetAt(blocks, plan, false, |blocks|)
  }

  /**
   A block added at the end is looked at like the others, except when the last block
   had too little unused memory: then it is used at once.
   */
  ghost predicate LooksAtNew(blocks: seq<Block>, need: nat) {
    blocks == [] || Unused(blocks[|blocks| - 1]) >= need
  }

  ghost function WithNew(blocks: seq<Block>, need: nat, fresh_: Block, bet: Bet): Bet {
    if LooksAtNew(blocks, need) then Better(fresh_.(cells := []), bet) else bet
  }

  /** How a turn of the loop leaves a block: it serves the request, or the search goes on, grows the heap or stops. */
  datatype Move = Here | Hop | Restarted | Grew | Stop

  /** One turn at block `at0`: where it leads. `at == |blocks|` is a block just added. */
  ghost predicate Turn(blocks: seq<Block>, need: nat, move: Move, at0: nat, first0: bool, at: nat, first: bool,
                       done: bool) {
    match move
    case Here => done && at == at0
    case Hop => at0 + 1 < |blocks| && !HasRoom(blocks[at0], need) && !done && at == at0 + 1 && first == first0
    case Restarted => at0 + 1 == |blocks| && !HasRoom(blocks[at0], need) && !done && first0 && !first && at == 0
    case Grew =>
      && at0 + 1 == |blocks| && !HasRoom(blocks[at0], need) && !first0 && !first && at == |blocks|
      && (done <==> !LooksAtNew(blocks, need))
    case Stop => at0 + 1 == |blocks| && !HasRoom(blocks[at0], need) && !first0 && done
  }

  lemma TurnTaken(blocks: seq<Block>, plan: Plan, need: nat, move: Move, at0: nat, first0: bool, bet0: Bet,
                  at: nat, first: bool, done: bool)
    requires OnTheWay(blocks, plan, need, first0, at0, bet0) && at0 < |blocks|
    requires Turn(blocks, need, move, at0, first0, at, first, done)
    requires move == Here ==> HasRoom(blocks[at0], need)
    ensures var bet := Better(blocks[at0], bet0);
            && (!done ==> OnTheWay(blocks, plan, need, first, at, bet))
            && (move == Here ==> Serves(blocks, plan.start, at, need) && bet == BetAfter(blocks, plan, at))
            && (move == Grew || move == Stop ==> bet == BetAfter(blocks, plan, |blocks|))
  {
    var bet := Better(blocks[at0], bet0);
    assert Best(blocks, 0, 0, BetAt(blocks, plan, true, |blocks|)) == BetAt(blocks, plan, true, |blocks|);
    assert bet == BetAt(blocks, plan, first0, at0 + 1);
  }

  /** Where leaving block `at0` leads. */
  predicate Leaves(n: nat, move: Move, at0: nat, first0: bool, at: nat) {
    match move
    case Here => false
    case Hop => at0 + 1 < n && at == at0 + 1
    case Restarted => at0 + 1 == n && first0 && at == 0
    case Grew => at0 + 1 == n && !first0 && at == n
    case Stop => at0 + 1 == n && !first0
  }

  /**
   The way of a whole search: block `i` of the heap `after` serves the request, the
   first with room on the way, and the hint is the best bet seen on the way.
   */
  ghost predicate Routed(before: seq<Block>, hint: nat, need: nat, p: nat, i: nat, after: seq<Block>, hint': nat) {
    exists plan :: Begins(before, hint, need, plan) && RoutedBy(before, plan, need, p, i, after, hint')
  }

  ghost predicate RoutedBy(before: seq<Block>, plan: Plan, need: nat, p: nat, i: nat, after: seq<Block>, hint': nat) {
    && plan.start <= |before|
    && if p == 0 then
         hint' == BetAfter(before, plan, |before|).addr
       else
         && i < |after| && Serves(before, plan.start, i, need)
         && hint' == (if i < |before| then BetAfter(before, plan, i)
                      else WithNew(before, need, after[i], BetAfter(before, plan, |before|))).addr
  }

  /** The same block, whatever its allocations. */
  ghost predicate SameShell(b: Block, b': Block) {
    b.(cells := []) == b'.(cells := [])
  }

  /** A block just added serves the request; any other leads on. */
  ghost predicate Went(before: seq<Block>, need: nat, move: Move, at0: nat, first0: bool, grown0: bool,
                       at: nat, first: bool, done: bool) {
    if grown0 then done && move == Here && at == at0
    else at0 < |before| && Turn(before, need, move, at0, first0, at, first, done)
  }

  /** What one turn of the search at block `b` did: where it leads, or how it ended with `p` and the blocks `after`. */
  ghost predicate Stepped(before: seq<Block>, need: nat, b: Block, at0: nat, first0: bool, move: Move,
                          at: nat, first: bool, done: bool, p: nat, after: seq<Block>) {
    && (if at0 == |before| then b.cells == [] else at0 < |before| && b == before[at0])
    && Went(before, need, move, at0, first0, at0 == |before|, at, first, done)
    && (move == Here ==> HasRoom(b, need) && at < |after| && SameShell(b, after[at]))
    && (done ==> (p == 0 <==> move == Stop) && (p != 0 ==> at < |after|))
  }

  ghost predicate Steps(before: seq<Block>, need: nat, b: Block, at0: nat, first0: bool, at: nat, first: bool,
                        done: bool, p: nat, after: seq<Block>) {
    exists move :: Stepped(before, need, b, at0, first0, move, at, first, done, p, after)
  }

  /** A search that began with this hint is on its way. */
  ghost predicate EnRoute(before: seq<Block>, hint: nat, need: nat, first: bool, at: nat, bet: Bet) {
    exists plan :: Begins(before, hint, need, plan) && OnTheWay(before, plan, need, first, at, bet)
  }

  /** One more turn of the search, at block `b`. */
  lemma RouteOn(before: seq<Block>, hint: nat, need: nat, b: Block, at0: nat, first0: bool, bet0: Bet,
                at: nat, first: bool, done: bool, p: nat, after: seq<Block>)
    requires EnRoute(before, hint, need, first0, at0, bet0) && need > 0
    requires Steps(before, need, b, at0, first0, at, first, done, p, after)
    ensures var bet := Better(b, bet0);
            if done then Routed(before, hint, need, p, at, after, bet.addr)
            else EnRoute(before, hint, need, first, at, bet)
  {
    var plan :| Begins(before, hint, need, plan) && OnTheWay(before, plan, need, first0, at0, bet0);
    var move :| Stepped(before, need, b, at0, first0, move, at, first, done, p, after);
    if at0 < |before| {
      TurnTaken(before, plan, need, move, at0, first0, bet0, at, first, done);
    } else {
      assert b == after[at].(cells := []);
    }
    assert done ==> RoutedBy(before, plan, need, p, at, after, Better(b, bet0).addr);
  }

  /** Nothing to search in an empty heap. */
  lemma NoRoute(need: nat, after: seq<Block>)
    ensures Routed([], 0, need, 0, 0, after, 0)
  {
    assert Begins([], 0, need, Plan(0, false, Bet(0, 0)));
    assert RoutedBy([], Plan(0, false, Bet(0, 0)), need, 0, 0, after, 0);
  }

  // ----- After a free -----

  /** A 32-bit value read as signed. */
  function Signed(x: int): int {
    if x < 0x8000_0000 then x else x - 0x1_0000_0000
  }

  /**
   The hint after allocation `k` of block `i` is freed: forgotten with its block, and
   otherwise the block if it has more unused memory, compared as signed numbers, than
   the hinted one.
   */
  ghost predicate HintAfterFree(before: seq<Block>, i: nat, k: nat, hint: nat, hint': nat) {
    && i < |before| && k < |before[i].cells|
    && if |before[i].cells| == 1 then
         hint' == if hint == before[i].addr then 0 else hint
       else
         HintReconsidered(before[i := RemoveCell(before[i], k)], i, hint, hint')
  }

  ghost predicate HintReconsidered(blocks: seq<Block>, i: nat, hint: nat, hint': nat) {
    && i < |blocks|
    && if hint == 0 then
         hint' == 0
       else
         exists j: nat :: Hinted(blocks, hint, j) &&
           hint' == if Signed(Unused(blocks[i])) > Signed(Unused(blocks[j])) then blocks[i].addr else hint
  }
}
