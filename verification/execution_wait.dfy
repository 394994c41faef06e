/** The recently-executed window, epoch resets, and the wait that decides executed or forked. */
module ExecutionWait {
  import opened Tables

  type Hash = nat

  datatype Block = Block(number: nat, hash: Hash)

  /** What an empty window answers with: number zero and the hash of the default header. */
  const DEFAULT_BLOCK := Block(0, 0)

  // ----- The window -----

  function Latest(blocks: seq<Block>): Block {
    if blocks == [] then DEFAULT_BLOCK else blocks[|blocks| - 1]
  }

  function OldestNumber(blocks: seq<Block>): nat {
    if blocks == [] then 0 else blocks[0].number
  }

  function Pushed(capacity: nat, blocks: seq<Block>, b: Block): seq<Block> {
    (if blocks != [] && |blocks| >= capacity then blocks[1..] else blocks) + [b]
  }

  class RecentlyExecutedBlocks {
    const numBlocks: nat
    var blocks: seq<Block>

    constructor (numBlocks: nat)
      ensures this.numBlocks == numBlocks && blocks == []
    {
      this.numBlocks, blocks := numBlocks, [];
    }

    method PushLatest(latest: Block)
      modifies this
      ensures blocks == Pushed(numBlocks, old(blocks), latest)
    {
      if |blocks| >= numBlocks && blocks != [] {
        blocks := blocks[1..];
      }
      blocks := blocks + [latest];
    }
  }

  method ContainsHash(blocks: seq<Block>, hash: Hash) returns (found: bool)
    ensures found <==> exists b | b in blocks :: b.hash == hash
  {
    found := false;
    var i := 0;
    while i < |blocks| && !found
      invariant i <= |blocks|
      invariant found <==> exists b | b in blocks[..i] :: b.hash == hash
    {
      assert blocks[..i + 1] == blocks[..i] + [blocks[i]];
      found := blocks[i].hash == hash;
      i := i + 1;
    }
    assert blocks[..|blocks|] == blocks;
  }

  /** `b` is the first block of the number, if there is one. */
  ghost predicate FirstAt(b: Option<Block>, blocks: seq<Block>, number: nat) {
    match b
    case None => forall x | x in blocks :: x.number != number
    case Some(b) => exists i | 0 <= i < |blocks| :: IsFirstAt(blocks, i, b) && b.number == number
  }

  ghost predicate IsFirstAt(blocks: seq<Block>, i: nat, b: Block)
    requires i < |blocks|
  {
    blocks[i] == b && forall j | 0 <= j < i :: blocks[j].number != b.number
  }

  method BlockAtNumber(blocks: seq<Block>, number: nat) returns (b: Option<Block>)
    ensures FirstAt(b, blocks, number)
  {
    for i := 0 to |blocks|
      invariant forall j | 0 <= j < i :: blocks[j].number != number
    {
      if blocks[i].number == number {
        assert IsFirstAt(blocks, i, blocks[i]);
        return Some(blocks[i]);
      }
    }
    return None;
  }

  // ----- The bus -----

  /** The window in its watch channel, and the last block an unfinished epoch reset has read. */
  datatype Bus = Bus(window: seq<Block>, read: Option<Block>)

  /** An epoch reset reads the last block and then replaces the window: two steps. */
  datatype Event = BlockExecuted(block: Block) | ResetRead | ResetReplace

  function Apply(capacity: nat, bus: Bus, e: Event): Bus {
    match e
    case BlockExecuted(b) => bus.(window := Pushed(capacity, bus.window, b))
    case ResetRead => bus.(read := Some(Latest(bus.window)))
    case ResetReplace => if bus.read.Some? then Bus([bus.read.value], None) else bus
  }

  class ConsensusBus {
    var recent: RecentlyExecutedBlocks
    var read: Option<Block>

    constructor (numBlocks: nat)
      ensures fresh(recent) && recent.numBlocks == numBlocks && View() == Bus([], None)
    {
      recent := new RecentlyExecutedBlocks(numBlocks);
      read := None;
    }

    ghost function View(): Bus
      reads this, recent
    {
      Bus(recent.blocks, read)
    }

    method Execute(b: Block)
      modifies recent
      ensures View() == Apply(recent.numBlocks, old(View()), BlockExecuted(b))
    {
      recent.PushLatest(b);
    }

    method BeginReset()
      modifies this`read
      ensures View() == Apply(recent.numBlocks, old(View()), ResetRead)
    {
      read := Some(Latest(recent.blocks));
    }

    method FinishReset()
      modifies this
      ensures recent.numBlocks == old(recent.numBlocks)
      ensures View() == Apply(recent.numBlocks, old(View()), ResetReplace)
      ensures recent == old(recent) || fresh(recent)
    {
      if read.Some? {
        var replacement := new RecentlyExecutedBlocks(recent.numBlocks);
        replacement.PushLatest(read.value);
        recent, read := replacement, None;
      }
    }

    /** Hangs onto the last block of the previous epoch and clears the rest. */
    method ResetForEpoch()
      modifies this
      ensures recent.numBlocks == old(recent.numBlocks)
      ensures View() == Bus([Latest(old(recent.blocks))], None)
    {
      BeginReset();
      FinishReset();
    }
  }

  // ----- The wait -----

  /** The decision taken on one look at the window. */
  predicate Accepts(blocks: seq<Block>, target: Block) {
    target.number < OldestNumber(blocks) || exists b | b in blocks :: b.hash == target.hash
  }

  /** How a wait ends: with a decision taken on the view at an index, or with no more views because
      the channel closed or stayed idle. */
  datatype Waited = Executed(at: nat) | Forked(at: nat, instead: Option<Block>) | Stalled

  predicate Reached(blocks: seq<Block>, target: Block) {
    Latest(blocks).number >= target.number
  }

  /** View `i` is the first after a non-empty one to have reached the target. */
  ghost predicate FirstToReach(views: seq<seq<Block>>, target: Block, i: nat) {
    && i < |views| && Reached(views[i], target) && (exists f | 0 <= f < i :: views[f] != [])
    && forall j | 0 < j < i :: (exists f | 0 <= f < j :: views[f] != []) ==> !Reached(views[j], target)
  }

  /** Waits on the successive views of the window that its borrows return: past the empty ones, then
      until one has reached the target, then decides on the next. */
  method WaitForExecution(views: seq<seq<Block>>, target: Block) returns (r: Waited)
    ensures !r.Stalled? ==>
              && 2 <= r.at < |views| && FirstToReach(views, target, r.at - 1)
              && (r.Executed? <==> Accepts(views[r.at], target))
              && (r.Forked? ==> FirstAt(r.instead, views[r.at], target.number))
    ensures r.Stalled? ==>
              forall i, j | 0 <= i < j < |views| - 1 && views[i] != [] :: !Reached(views[j], target)
  {
    var i := 0;
    while i < |views| && views[i] == []
      invariant i <= |views| && forall k | 0 <= k < i :: views[k] == []
    {
      i := i + 1;
    }
    var first := i;
    i := i + 1;
    while i < |views| && Latest(views[i]).number < target.number
      invariant first < i && forall k | first < k < i && k < |views| :: !Reached(views[k], target)
    {
      i := i + 1;
    }
    if i + 1 >= |views| {
      return Stalled;
    }
    var recent := views[i + 1];
    assert views[first] != [];
    if target.number < OldestNumber(recent) {
      return Executed(i + 1);
    }
    var found := ContainsHash(recent, target.hash);
    if found {
      return Executed(i + 1);
    }
    var instead := BlockAtNumber(recent, target.number);
    r := Forked(i + 1, instead);
  }

  // ----- Runs -----

  function BusAfter(capacity: nat, seed: Block, events: seq<Event>): Bus {
    if events == [] then Bus([seed], None)
    else Apply(capacity, BusAfter(capacity, seed, events[..|events| - 1]), events[|events| - 1])
  }

  function WindowAfter(capacity: nat, seed: Block, events: seq<Event>): seq<Block> {
    BusAfter(capacity, seed, events).window
  }

  function Recorded(history: seq<Block>, e: Event): seq<Block> {
    if e.BlockExecuted? then history + [e.block] else history
  }

  /** Every block executed since the window was seeded. */
  function History(seed: Block, events: seq<Event>): (h: seq<Block>)
    ensures h != []
  {
    if events == [] then [seed]
    else Recorded(History(seed, events[..|events| - 1]), events[|events| - 1])
  }

  predicate Consecutive(blocks: seq<Block>) {
    forall i | 0 < i < |blocks| :: blocks[i].number == blocks[i - 1].number + 1
  }

  predicate Suffix(s: seq<Block>, all: seq<Block>) {
    |s| <= |all| && s == all[|all| - |s|..]
  }

  /** A reset has read and not yet replaced. */
  predicate Pending(events: seq<Event>) {
    events != [] &&
    match events[|events| - 1]
    case ResetRead => true
    case ResetReplace => false
    case BlockExecuted(_) => Pending(events[..|events| - 1])
  }

  /** A reset has read, and a block was executed since. */
  predicate Overtaken(events: seq<Event>) {
    events != [] && events[|events| - 1].BlockExecuted? && Pending(events[..|events| - 1])
  }

  /** No block is executed between the two steps of a reset. */
  predicate Quiet(events: seq<Event>) {
    events != [] ==>
      var init := events[..|events| - 1];
      Quiet(init) && (events[|events| - 1].ResetReplace? ==> !Overtaken(init))
  }

  /** What an unfinished reset has read is an executed block, the last unless it was overtaken. */
  ghost predicate ReadFits(bus: Bus, history: seq<Block>, pending: bool, overtaken: bool)
    requires history != []
  {
    && (bus.read.Some? <==> pending)
    && (pending && !overtaken ==> bus.read.value == Latest(history))
    && (pending && overtaken ==> bus.read.value in history[..|history| - 1])
  }

  /** The window is the last blocks executed, at least one and at most its capacity. */
  predicate WindowFits(capacity: nat, window: seq<Block>, history: seq<Block>) {
    window != [] && Suffix(window, history) && (|window| <= capacity || |window| == 1)
  }

  lemma PushFits(capacity: nat, window: seq<Block>, history: seq<Block>, b: Block)
    requires WindowFits(capacity, window, history)
    ensures WindowFits(capacity, Pushed(capacity, window, b), history + [b])
  {
  }

  lemma ReadStep(capacity: nat, bus: Bus, history: seq<Block>, pending: bool, overtaken: bool, e: Event)
    requires WindowFits(capacity, bus.window, history) && ReadFits(bus, history, pending, overtaken)
    requires overtaken ==> pending
    ensures var now := e.ResetRead? || (e.BlockExecuted? && pending);
            ReadFits(Apply(capacity, bus, e), Recorded(history, e), now, e.BlockExecuted? && pending)
  {
    if e.BlockExecuted? {
      assert (history + [e.block])[..|history|] == history;
    }
  }

  lemma WindowStep(capacity: nat, bus: Bus, history: seq<Block>, pending: bool, overtaken: bool, e: Event)
    requires WindowFits(capacity, bus.window, history) && ReadFits(bus, history, pending, overtaken)
    requires e.ResetReplace? ==> !overtaken
    ensures WindowFits(capacity, Apply(capacity, bus, e).window, Recorded(history, e))
  {
    match e
    case BlockExecuted(b) => PushFits(capacity, bus.window, history, b);
    case _ =>
  }

  /** Over every run without an overtaken reset the window is the last blocks executed, at least one
      and at most its capacity. */
  lemma {:induction false} WindowIsSuffix(capacity: nat, seed: Block, events: seq<Event>)
    requires Quiet(events)
    ensures WindowFits(capacity, WindowAfter(capacity, seed, events), History(seed, events))
    ensures ReadFits(BusAfter(capacity, seed, events), History(seed, events), Pending(events), Overtaken(events))
  {
    if events != [] {
      var init, e := events[..|events| - 1], events[|events| - 1];
      WindowIsSuffix(capacity, seed, init);
      var bus, history := BusAfter(capacity, seed, init), History(seed, init);
      ReadStep(capacity, bus, history, Pending(init), Overtaken(init), e);
      WindowStep(capacity, bus, history, Pending(init), Overtaken(init), e);
    }
  }

  ghost predicate AlwaysSuffix(capacity: nat, seed: Block, events: seq<Event>) {
    forall k | 0 <= k <= |events| :: SuffixAt(capacity, seed, events, k)
  }

  ghost predicate SuffixAt(capacity: nat, seed: Block, events: seq<Event>, k: nat)
    requires k <= |events|
  {
    Suffix(WindowAfter(capacity, seed, events[..k]), History(seed, events[..k]))
  }

  lemma {:induction false} NumberedFrom(blocks: seq<Block>, i: nat)
    requires Consecutive(blocks) && i < |blocks|
    ensures blocks[i].number == blocks[0].number + i
  {
    if i > 0 {
      NumberedFrom(blocks, i - 1);
    }
  }

  lemma {:induction false} HistoryGrows(seed: Block, events: seq<Event>, k: nat)
    requires k <= |events|
    ensures History(seed, events[..k]) <= History(seed, events)
  {
    if k < |events| {
      var n := |events| - 1;
      HistoryGrows(seed, events[..n], k);
      assert events[..n][..k] == events[..k];
    } else {
      assert events[..k] == events;
    }
  }

  lemma {:induction false} QuietBefore(events: seq<Event>, k: nat)
    requires Quiet(events) && k <= |events|
    ensures Quiet(events[..k])
  {
    if k < |events| {
      var n := |events| - 1;
      QuietBefore(events[..n], k);
      assert events[..n][..k] == events[..k];
    } else {
      assert events[..k] == events;
    }
  }

  /** What has been reached stays reached, across pushes and resets. */
  lemma ReachedLasts(capacity: nat, seed: Block, events: seq<Event>, k: nat, target: Block)
    requires k <= |events| && Quiet(events) && Consecutive(History(seed, events))
    requires Reached(WindowAfter(capacity, seed, events[..k]), target)
    ensures Reached(WindowAfter(capacity, seed, events), target)
  {
    QuietBefore(events, k);
    WindowIsSuffix(capacity, seed, events[..k]);
    WindowIsSuffix(capacity, seed, events);
    HistoryGrows(seed, events, k);
    var early, late := History(seed, events[..k]), History(seed, events);
    assert late[|early| - 1] == early[|early| - 1];
    NumberedFrom(late, |early| - 1);
    NumberedFrom(late, |late| - 1);
  }

  /** Hashes name blocks: an executed block with the target's hash has the target's number. */
  predicate HashNames(history: seq<Block>, target: Block) {
    forall b | b in history && b.hash == target.hash :: b.number == target.number
  }

  lemma WindowHolds(window: seq<Block>, history: seq<Block>, target: Block) returns (b: Block)
    requires window != [] && Suffix(window, history) && Consecutive(history)
    requires OldestNumber(window) <= target.number && Reached(window, target)
    ensures b in window && b in history && b.number == target.number
    ensures forall x | x in history && x.number == target.number :: x == b
  {
    var skip := |history| - |window|;
    NumberedFrom(history, skip);
    NumberedFrom(history, |history| - 1);
    var i := target.number - history[0].number;
    NumberedFrom(history, i);
    b := history[i];
    assert b == window[i - skip];
    forall x | x in history && x.number == target.number
      ensures x == b
    {
      var j :| 0 <= j < |history| && history[j] == x;
      NumberedFrom(history, j);
    }
  }

  /** One look at a window decides as the chain does. */
  predicate Decides(window: seq<Block>, target: Block) {
    Accepts(window, target) <==> target.number < OldestNumber(window) || target in window
  }

  lemma NamedDecides(window: seq<Block>, history: seq<Block>, target: Block)
    requires window != [] && Suffix(window, history) && Consecutive(history) && Reached(window, target)
    requires target in history || HashNames(history, target)
    ensures Decides(window, target)
  {
    assert forall b | b in window :: b in history;
    if OldestNumber(window) <= target.number {
      var b := WindowHolds(window, history, target);
    }
  }

  lemma ForkedIffOther(window: seq<Block>, history: seq<Block>, target: Block)
    requires window != [] && Suffix(window, history) && Consecutive(history) && Reached(window, target)
    requires Decides(window, target)
    ensures !Accepts(window, target) <==> exists b | b in window :: b.number == target.number && b != target
  {
    if OldestNumber(window) <= target.number {
      var b := WindowHolds(window, history, target);
      assert forall x | x in window :: x in history;
    } else {
      NotInWindow(window, history, target);
    }
  }

  /** A target within the window's numbers is in the window exactly when it was executed. */
  lemma InWindowIffExecuted(window: seq<Block>, history: seq<Block>, target: Block)
    requires window != [] && Suffix(window, history) && Consecutive(history) && Reached(window, target)
    requires OldestNumber(window) <= target.number
    ensures target in window <==> target in history
  {
    var b := WindowHolds(window, history, target);
    assert forall x | x in window :: x in history;
  }

  /** Once the target's number is reached, the wait accepts it exactly when the target is older than
      the window or is the block executed at its number, and calls it forked exactly when another
      block was executed at its number and is still in the window. */
  lemma WaitIsExact(capacity: nat, seed: Block, events: seq<Event>, target: Block)
    requires Quiet(events) && Consecutive(History(seed, events)) && HashNames(History(seed, events), target)
    requires Reached(WindowAfter(capacity, seed, events), target)
    ensures var window := WindowAfter(capacity, seed, events);
            Accepts(window, target) <==> target.number < OldestNumber(window) || target in window
    ensures var window := WindowAfter(capacity, seed, events);
            !Accepts(window, target) <==> exists b | b in window :: b.number == target.number && b != target
    ensures target in History(seed, events) ==> Accepts(WindowAfter(capacity, seed, events), target)
  {
    var window, history := WindowAfter(capacity, seed, events), History(seed, events);
    WindowIsSuffix(capacity, seed, events);
    NamedDecides(window, history, target);
    ForkedIffOther(window, history, target);
    if OldestNumber(window) <= target.number {
      InWindowIffExecuted(window, history, target);
    }
  }

  /** The views of a wait are the window at times that do not run backwards. */
  ghost predicate ViewsOf(capacity: nat, seed: Block, events: seq<Event>, times: seq<nat>, views: seq<seq<Block>>) {
    && |times| == |views|
    && (forall i | 0 <= i < |views| :: times[i] <= |events| && views[i] == WindowAfter(capacity, seed, events[..times[i]]))
    && forall i, j | 0 <= i <= j < |views| :: times[i] <= times[j]
  }

  /** Whatever is executed and reset between its borrows, a wait that saw the target's number reached
      accepts the target exactly when it has left the window or is the block the chain executes at
      its number. */
  lemma WaitOverRun(capacity: nat, seed: Block, events: seq<Event>, times: seq<nat>, views: seq<seq<Block>>,
                    target: Block, at: nat)
    requires ViewsOf(capacity, seed, events, times, views)
    requires Quiet(events) && Consecutive(History(seed, events)) && HashNames(History(seed, events), target)
    requires 1 <= at < |views| && Reached(views[at - 1], target)
    ensures Accepts(views[at], target)
       <==> target.number < OldestNumber(views[at]) || target in History(seed, events)
  {
    var seen := events[..times[at]];
    assert times[at - 1] <= times[at] && seen[..times[at - 1]] == events[..times[at - 1]];
    HistoryGrows(seed, events, times[at]);
    QuietBefore(events, times[at]);
    ReachedLasts(capacity, seed, seen, times[at - 1], target);
    WindowIsSuffix(capacity, seed, seen);
    DecidesEarly(views[at], History(seed, seen), History(seed, events), target);
  }

  /** A window that has reached the target decides for the whole history, of which it saw a part. */
  lemma DecidesEarly(window: seq<Block>, seen: seq<Block>, history: seq<Block>, target: Block)
    requires window != [] && Suffix(window, seen) && seen <= history && Consecutive(history)
    requires HashNames(history, target) && Reached(window, target)
    ensures Accepts(window, target) <==> target.number < OldestNumber(window) || target in history
  {
    assert forall x | x in seen :: x in history;
    NamedDecides(window, seen, target);
    if OldestNumber(window) <= target.number {
      var b := WindowHolds(window, seen, target);
      InWindowIffExecuted(window, seen, target);
      if target in history {
        OnePerNumber(history, b, target);
      }
    }
  }

  lemma OnePerNumber(history: seq<Block>, a: Block, b: Block)
    requires Consecutive(history) && a in history && b in history && a.number == b.number
    ensures a == b
  {
    var i :| 0 <= i < |history| && history[i] == a;
    var j :| 0 <= j < |history| && history[j] == b;
    NumberedFrom(history, i);
    NumberedFrom(history, j);
  }

  lemma NotInWindow(window: seq<Block>, history: seq<Block>, target: Block)
    requires window != [] && Suffix(window, history) && Consecutive(history)
    requires target.number < OldestNumber(window)
    ensures forall b | b in window :: b.number != target.number
  {
    forall b | b in window
      ensures b.number != target.number
    {
      var i :| 0 <= i < |window| && window[i] == b;
      var skip := |history| - |window|;
      assert window[i] == history[skip + i] && window[0] == history[skip];
      NumberedFrom(history, skip);
      NumberedFrom(history, skip + i);
    }
  }

  // ----- Where the wait and the chain disagree -----

  lemma SuffixBefore(capacity: nat, seed: Block, events: seq<Event>)
    requires events != [] && AlwaysSuffix(capacity, seed, events)
    ensures AlwaysSuffix(capacity, seed, events[..|events| - 1])
    ensures Suffix(WindowAfter(capacity, seed, events), History(seed, events))
  {
    var n := |events| - 1;
    forall k | 0 <= k <= n
      ensures SuffixAt(capacity, seed, events[..n], k)
    {
      assert events[..n][..k] == events[..k] && SuffixAt(capacity, seed, events, k);
    }
    assert events[..|events|] == events && SuffixAt(capacity, seed, events, |events|);
  }

  lemma OvertakenBreaks(bus: Bus, history: seq<Block>)
    requires history != [] && Consecutive(history) && ReadFits(bus, history, true, true)
    ensures !Suffix([bus.read.value], history)
  {
    NotTheLast(history, bus.read.value);
  }

  lemma {:induction false} QuietFrom(capacity: nat, seed: Block, events: seq<Event>)
    requires Consecutive(History(seed, events)) && AlwaysSuffix(capacity, seed, events)
    ensures Quiet(events)
  {
    if events != [] {
      var n := |events| - 1;
      var init := events[..n];
      SuffixBefore(capacity, seed, events);
      HistoryGrows(seed, events, n);
      QuietFrom(capacity, seed, init);
      WindowIsSuffix(capacity, seed, init);
      if Overtaken(init) {
        PendingWhenOvertaken(init);
        OvertakenBreaks(BusAfter(capacity, seed, init), History(seed, init));
      }
    }
  }

  lemma PendingWhenOvertaken(events: seq<Event>)
    ensures Overtaken(events) ==> Pending(events)
  {
  }

  lemma NotTheLast(history: seq<Block>, b: Block)
    requires history != [] && Consecutive(history) && b in history[..|history| - 1]
    ensures b != Latest(history)
  {
    BeforeLast(history, b);
  }

  /** The window stays the last blocks executed exactly when no reset is overtaken. */
  lemma SuffixIffQuiet(capacity: nat, seed: Block, events: seq<Event>)
    requires Consecutive(History(seed, events))
    ensures AlwaysSuffix(capacity, seed, events) <==> Quiet(events)
  {
    if Quiet(events) {
      forall k | 0 <= k <= |events|
        ensures SuffixAt(capacity, seed, events, k)
      {
        QuietBefore(events, k);
        WindowIsSuffix(capacity, seed, events[..k]);
      }
    }
    if AlwaysSuffix(capacity, seed, events) {
      QuietFrom(capacity, seed, events);
    }
  }

  /** Hashes are distinct within a history. */
  predicate DistinctHashes(history: seq<Block>) {
    forall a, b | a in history && b in history && a.hash == b.hash :: a == b
  }

  lemma AfterReset(capacity: nat, seed: Block, events: seq<Event>, next: Block)
    requires BusAfter(capacity, seed, events).read.Some?
    ensures var b, later := BusAfter(capacity, seed, events).read.value, events + [ResetReplace, BlockExecuted(next)];
            && History(seed, later) == History(seed, events) + [next]
            && WindowAfter(capacity, seed, later) == if capacity <= 1 then [next] else [b, next]
  {
    var one, two := events + [ResetReplace], events + [ResetReplace, BlockExecuted(next)];
    assert one[..|events|] == events && two[..|events| + 1] == one;
    assert BusAfter(capacity, seed, one).window == [BusAfter(capacity, seed, events).read.value];
  }

  /** With the blocks between `b` and `next` gone from the window, an executed block up to `next` is
      accepted exactly when it is no later than `b` or the window holds one block only. */
  lemma GapForks(capacity: nat, history: seq<Block>, b: Block, next: Block, x: Block)
    requires Consecutive(history + [next]) && DistinctHashes(history + [next])
    requires b in history && x in history
    ensures var window := if capacity <= 1 then [next] else [b, next];
            Reached(window, x) && (Accepts(window, x) <==> capacity <= 1 || x.number <= b.number)
  {
    var all := history + [next];
    BeforeLast(all, x);
    assert b in all && x in all && next in all;
    if x.number == b.number {
      OnePerNumber(all, x, b);
    }
  }

  lemma BeforeLast(history: seq<Block>, x: Block)
    requires history != [] && Consecutive(history) && x in history[..|history| - 1]
    ensures x.number < Latest(history).number
  {
    var i :| 0 <= i < |history| - 1 && history[i] == x;
    NumberedFrom(history, i);
    NumberedFrom(history, |history| - 1);
  }

  /** Blocks executed between the two steps of a reset are lost: once the next block is executed, a
      wait for an executed block succeeds exactly when it is no later than the one the reset read, or
      the window holds one block only. */
  lemma LostBlocksFork(capacity: nat, seed: Block, events: seq<Event>, next: Block, x: Block)
    requires Quiet(events) && Pending(events) && x in History(seed, events)
    requires var all := History(seed, events) + [next]; Consecutive(all) && DistinctHashes(all)
    ensures var window := WindowAfter(capacity, seed, events + [ResetReplace, BlockExecuted(next)]);
            && BusAfter(capacity, seed, events).read.Some? && Reached(window, x)
            && (Accepts(window, x) <==> capacity <= 1 || x.number <= BusAfter(capacity, seed, events).read.value.number)
  {
    WindowIsSuffix(capacity, seed, events);
    AfterReset(capacity, seed, events, next);
    var history, b := History(seed, events), BusAfter(capacity, seed, events).read.value;
    assert b in history by {
      assert Latest(history) == history[|history| - 1];
    }
    GapForks(capacity, history, b, next, x);
  }

  /** The wait only looks for the hash: it accepts a target although another block was executed at
      its number exactly when the window holds the hash at a number that is not the target's. */
  lemma WrongNumberIsAccepted(window: seq<Block>, target: Block)
    requires OldestNumber(window) <= target.number && target !in window
    ensures Accepts(window, target) <==> exists b | b in window :: b.hash == target.hash && b.number != target.number
  {
    if b :| b in window && b.hash == target.hash {
      assert b.number == target.number ==> b == target;
    }
  }

  /** A fork the wait misses: another block is executed at the target's number and still in the window. */
  lemma ForkIsMissed() returns (seed: Block, events: seq<Event>, target: Block, other: Block)
    ensures var window := WindowAfter(2, seed, events);
            && Quiet(events) && Consecutive(History(seed, events)) && Reached(window, target)
            && other in window && other.number == target.number && other != target
            && Accepts(window, target)
  {
    seed, other, target := Block(0, 5), Block(1, 7), Block(1, 5);
    var chain := [seed, other];
    events := Pushes(chain);
    SuffixIsWindow(chain, chain);
    assert chain[0] in chain && chain[1] in chain;
  }

  /** Pushes alone make every last part of a history a window. */
  function Pushes(history: seq<Block>): seq<Event>
    requires history != []
  {
    seq(|history| - 1, i requires 0 <= i < |history| - 1 => BlockExecuted(history[i + 1]))
  }

  lemma {:induction false} PushesRecord(history: seq<Block>)
    requires history != []
    ensures History(history[0], Pushes(history)) == history && Quiet(Pushes(history))
  {
    if |history| > 1 {
      var n := |history| - 1;
      PushesRecord(history[..n]);
      assert Pushes(history)[..n - 1] == Pushes(history[..n]);
      assert history[..n] + [history[n]] == history;
    }
  }

  /** The last `n` blocks, or all if there are fewer. */
  function LastOf(history: seq<Block>, n: nat): seq<Block> {
    if n <= |history| then history[|history| - n..] else history
  }

  lemma PushKeepsLast(capacity: nat, history: seq<Block>, b: Block)
    requires history != [] && capacity >= 1
    ensures Pushed(capacity, LastOf(history, capacity), b) == LastOf(history + [b], capacity)
  {
  }

  lemma {:induction false} PushesGive(capacity: nat, history: seq<Block>)
    requires history != [] && capacity >= 1
    ensures WindowAfter(capacity, history[0], Pushes(history)) == LastOf(history, capacity)
  {
    if |history| > 1 {
      var n := |history| - 1;
      var init, b := history[..n], history[n];
      PushesGive(capacity, init);
      PushesMore(init, b);
      PushMore(capacity, history[0], Pushes(init), b);
      PushKeepsLast(capacity, init, b);
      assert init + [b] == history;
    } else {
      assert Pushes(history) == [];
    }
  }

  lemma PushesMore(history: seq<Block>, b: Block)
    requires history != []
    ensures Pushes(history + [b]) == Pushes(history) + [BlockExecuted(b)]
  {
  }

  lemma PushMore(capacity: nat, seed: Block, events: seq<Event>, b: Block)
    ensures WindowAfter(capacity, seed, events + [BlockExecuted(b)]) == Pushed(capacity, WindowAfter(capacity, seed, events), b)
  {
    assert (events + [BlockExecuted(b)])[..|events|] == events;
  }

  lemma SuffixIsWindow(window: seq<Block>, history: seq<Block>)
    requires window != [] && Suffix(window, history)
    ensures WindowAfter(|window|, history[0], Pushes(history)) == window
    ensures History(history[0], Pushes(history)) == history && Quiet(Pushes(history))
  {
    PushesRecord(history);
    PushesGive(|window|, history);
  }

  /** Every run that executes a given history decides a target within its numbers as the chain does,
      exactly when the history executes the target or has its hash at no other number. */
  lemma DecidesIffNamed(history: seq<Block>, target: Block)
    requires history != [] && Consecutive(history)
    requires history[0].number <= target.number <= Latest(history).number
    ensures (forall capacity, events | RunOf(history, capacity, events) :: Decides(WindowAfter(capacity, history[0], events), target))
       <==> target in history || HashNames(history, target)
  {
    if target in history || HashNames(history, target) {
      forall capacity, events | RunOf(history, capacity, events)
        ensures Decides(WindowAfter(capacity, history[0], events), target)
      {
        WindowIsSuffix(capacity, history[0], events);
        NamedDecides(WindowAfter(capacity, history[0], events), history, target);
      }
    } else {
      SuffixIsWindow(history, history);
      assert RunOf(history, |history|, Pushes(history));
      WrongNumberIsAccepted(history, target);
      assert !Decides(history, target);
    }
  }

  ghost predicate RunOf(history: seq<Block>, capacity: nat, events: seq<Event>) {
    history != [] && Quiet(events) && History(history[0], events) == history
  }

  /** Resetting a window nothing was pushed to makes a block up: waiting for the genesis block then
      reports a fork, unless its hash is the default header's. */
  lemma UnseededResetForks(capacity: nat, genesis: Block)
    requires genesis.number == 0
    ensures var window := Apply(capacity, Apply(capacity, Bus([], None), ResetRead), ResetReplace).window;
            Reached(window, genesis) && (Accepts(window, genesis) <==> genesis.hash == DEFAULT_BLOCK.hash)
  {
    var window := Apply(capacity, Apply(capacity, Bus([], None), ResetRead), ResetReplace).window;
    assert window[0] in window;
  }
}
