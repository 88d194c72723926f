/** The callbacks told about a newly loaded game configuration, which may add and remove callbacks while the loop that
    tells them is running. */
module ConfigCallbacks {
  import opened Options

  /** What a callback may do when it is invoked. */
  datatype Action = Add(callback: nat) | Remove(callback: nat)

  /** What happened during the loop; additions and removals without effect are not recorded. */
  datatype Happening = Invoked(callback: nat) | Added(callback: nat) | Removed(callback: nat)

  type Trace = seq<Happening>

  ghost predicate Distinct(s: seq<nat>) {
    forall i, j :: 0 <= i < j < |s| ==> s[i] != s[j]
  }

  /** Where a callback is registered. */
  function Find(s: seq<nat>, c: nat): (i: nat)
    ensures i <= |s| && (i < |s| ==> s[i] == c) && (forall j :: 0 <= j < i ==> s[j] != c)
    ensures i < |s| <==> c in s
  {
    if s == [] || s[0] == c then 0 else 1 + Find(s[1..], c)
  }

  function Without(s: seq<nat>, i: nat): seq<nat>
    requires i < |s|
  {
    s[..i] + s[i + 1..]
  }

  /** The registered callbacks after a happening. */
  function Effect(s: seq<nat>, h: Happening): seq<nat> {
    match h
    case Invoked(_) => s
    case Added(c) => s + [c]
    case Removed(c) => if Find(s, c) < |s| then Without(s, Find(s, c)) else s
  }

  function Replay(start: seq<nat>, trace: Trace): seq<nat> {
    if trace == [] then start else Effect(Replay(start, trace[..|trace| - 1]), trace[|trace| - 1])
  }

  /** How often a callback was invoked since it was last added or removed. */
  function Since(trace: Trace, c: nat): nat {
    if trace == [] then 0
    else
      var before, h := Since(trace[..|trace| - 1], c), trace[|trace| - 1];
      if h.callback != c then before else if h.Invoked? then before + 1 else 0
  }

  /** How often it was invoked in all. */
  function Count(trace: Trace, c: nat): nat {
    if trace == [] then 0
    else Count(trace[..|trace| - 1], c) + if trace[|trace| - 1] == Invoked(c) then 1 else 0
  }

  /** When it was invoked last. */
  function Last(trace: Trace, c: nat): (r: int)
    ensures -1 <= r < |trace|
  {
    if trace == [] then -1
    else if trace[|trace| - 1] == Invoked(c) then |trace| - 1 else Last(trace[..|trace| - 1], c)
  }

  /** Only registered callbacks are invoked, and none twice without having been added again; what is added was not there
      and what is removed was. */
  predicate Orderly(start: seq<nat>, trace: Trace) {
    trace == [] ||
    var before, h := trace[..|trace| - 1], trace[|trace| - 1];
    && Orderly(start, before)
    && match h
       case Invoked(c) => c in Replay(start, before) && Since(before, c) == 0
       case Added(c) => c !in Replay(start, before)
       case Removed(c) => c in Replay(start, before)
  }

  /** The loop stands at `next`: those before it were invoked once since they were added, in their order, and those
      after it not at all. */
  ghost predicate Standing(start: seq<nat>, trace: Trace, callbacks: seq<nat>, next: nat) {
    && Distinct(callbacks) && next <= |callbacks| && Replay(start, trace) == callbacks && Orderly(start, trace)
    && (forall i :: 0 <= i < next ==> Since(trace, callbacks[i]) == 1)
    && (forall i :: next <= i < |callbacks| ==> Since(trace, callbacks[i]) == 0)
    && (forall i, j :: 0 <= i < j < next ==> Last(trace, callbacks[i]) < Last(trace, callbacks[j]))
  }

  lemma {:induction false} Grown(trace: Trace, h: Happening)
    ensures (trace + [h])[..|trace + [h]| - 1] == trace && (trace + [h])[|trace + [h]| - 1] == h
  {
  }

  lemma {:induction false} InvokeStep(start: seq<nat>, trace: Trace, callbacks: seq<nat>, next: nat)
    requires Standing(start, trace, callbacks, next) && next < |callbacks|
    ensures Standing(start, trace + [Invoked(callbacks[next])], callbacks, next + 1)
  {
    Grown(trace, Invoked(callbacks[next]));
  }

  /** The list after adding a callback: it is only added if it is not there. */
  function AddTo(s: seq<nat>, c: nat): seq<nat> {
    if c in s then s else s + [c]
  }

  function RemoveFrom(s: seq<nat>, c: nat): seq<nat> {
    if Find(s, c) < |s| then Without(s, Find(s, c)) else s
  }

  /** The next index after a removal. */
  function NextAfterRemove(s: seq<nat>, next: nat, c: nat): nat {
    if Find(s, c) < |s| && next > Find(s, c) then next - 1 else next
  }

  /** What an action adds to the trace. */
  function Recorded(s: seq<nat>, a: Action): Trace {
    match a
    case Add(c) => if c in s then [] else [Added(c)]
    case Remove(c) => if c in s then [Removed(c)] else []
  }

  function Changed(s: seq<nat>, a: Action): seq<nat> {
    match a
    case Add(c) => AddTo(s, c)
    case Remove(c) => RemoveFrom(s, c)
  }

  /** The registered callbacks after a list of actions, and what the actions add to the trace. */
  function Acted(s: seq<nat>, actions: seq<Action>): (seq<nat>, Trace) {
    if actions == [] then (s, [])
    else
      var (t, recorded) := Acted(s, actions[..|actions| - 1]);
      var a := actions[|actions| - 1];
      (Changed(t, a), recorded + Recorded(t, a))
  }

  lemma {:induction false} ActedNext(s: seq<nat>, actions: seq<Action>, k: nat)
    requires k < |actions|
    ensures var (t, recorded) := Acted(s, actions[..k]);
            Acted(s, actions[..k + 1]) == (Changed(t, actions[k]), recorded + Recorded(t, actions[k]))
  {
    assert actions[..k + 1][..k] == actions[..k] && actions[..k + 1][k] == actions[k];
  }

  /** What a callback does when it is the `k`-th one invoked. */
  function ActionsAt(script: seq<seq<Action>>, k: nat): seq<Action> {
    if k < |script| then script[k] else []
  }

  /** The `k`-th invocation is at `cuts[k]`; from there to the next one, or to the end, come the effects of the script
      at `k` on the callbacks registered then, and nothing else. */
  ghost predicate RoundAt(start: seq<nat>, trace: Trace, script: seq<seq<Action>>, cuts: seq<nat>, k: nat)
    requires k < |cuts|
  {
    var end := if k + 1 < |cuts| then cuts[k + 1] else |trace|;
    && cuts[k] < end <= |trace| && trace[cuts[k]].Invoked?
    && trace[cuts[k] + 1..end] == Acted(Replay(start, trace[..cuts[k]]), ActionsAt(script, k)).1
  }

  /** The trace consists of such rounds. */
  ghost predicate Scripted(start: seq<nat>, trace: Trace, script: seq<seq<Action>>, cuts: seq<nat>) {
    && (if cuts == [] then trace == [] else cuts[0] == 0)
    && forall k: nat :: k < |cuts| ==> RoundAt(start, trace, script, cuts, k)
  }

  lemma {:induction false} RoundStays(start: seq<nat>, trace: Trace, script: seq<seq<Action>>, cuts: seq<nat>, k: nat,
                                      more: Trace)
    requires k < |cuts| && RoundAt(start, trace, script, cuts, k)
    ensures RoundAt(start, trace + more, script, cuts + [|trace|], k)
  {
    var end := if k + 1 < |cuts| then cuts[k + 1] else |trace|;
    Prefix(trace, more, 0, cuts[k]);
    Prefix(trace, more, cuts[k] + 1, end);
    assert (cuts + [|trace|])[k] == cuts[k];
  }

  lemma {:induction false} Prefix(trace: Trace, more: Trace, lo: nat, hi: nat)
    requires lo <= hi <= |trace|
    ensures (trace + more)[lo..hi] == trace[lo..hi] && (trace + more)[..hi] == trace[..hi]
  {
  }

  lemma {:induction false} Joined(trace: Trace, h: Happening, more: Trace)
    ensures trace + [h] + more == trace + ([h] + more)
    ensures var t := trace + ([h] + more);
            t[..|trace|] == trace && t[|trace|] == h && t[|trace| + 1..|t|] == more
  {
  }

  lemma {:induction false} NewRound(start: seq<nat>, trace: Trace, script: seq<seq<Action>>, cuts: seq<nat>, c: nat,
                                    recorded: Trace)
    requires recorded == Acted(Replay(start, trace), ActionsAt(script, |cuts|)).1
    ensures RoundAt(start, trace + ([Invoked(c)] + recorded), script, cuts + [|trace|], |cuts|)
  {
    Joined(trace, Invoked(c), recorded);
  }

  lemma {:induction false} NextRound(start: seq<nat>, trace: Trace, script: seq<seq<Action>>, cuts: seq<nat>, c: nat,
                                     recorded: Trace)
    requires Scripted(start, trace, script, cuts)
    requires recorded == Acted(Replay(start, trace), ActionsAt(script, |cuts|)).1
    ensures Scripted(start, trace + ([Invoked(c)] + recorded), script, cuts + [|trace|])
  {
    var more, cuts' := [Invoked(c)] + recorded, cuts + [|trace|];
    forall k: nat | k < |cuts'| ensures RoundAt(start, trace + more, script, cuts', k) {
      if k < |cuts| {
        RoundStays(start, trace, script, cuts, k, more);
      } else {
        NewRound(start, trace, script, cuts, c, recorded);
      }
    }
  }

  /** A happening of one callback does not change what is known about another. */
  lemma {:induction false} OthersUnchanged(trace: Trace, h: Happening, d: nat)
    requires d != h.callback
    ensures Since(trace + [h], d) == Since(trace, d) && Last(trace + [h], d) == Last(trace, d)
  {
    Grown(trace, h);
  }

  lemma {:induction false} AddStep(start: seq<nat>, trace: Trace, callbacks: seq<nat>, next: nat, c: nat)
    requires Standing(start, trace, callbacks, next)
    ensures Standing(start, trace + Recorded(callbacks, Add(c)), AddTo(callbacks, c), next)
  {
    if c in callbacks {
      assert trace + [] == trace;
    } else {
      AddAbsent(start, trace, callbacks, next, c);
    }
  }

  lemma {:induction false} AddAbsent(start: seq<nat>, trace: Trace, callbacks: seq<nat>, next: nat, c: nat)
    requires Standing(start, trace, callbacks, next) && c !in callbacks
    ensures Standing(start, trace + [Added(c)], callbacks + [c], next)
  {
    var t, trace' := callbacks + [c], trace + [Added(c)];
    Grown(trace, Added(c));
    assert Since(trace', c) == 0;
    forall i: nat | i < |callbacks|
      ensures t[i] == callbacks[i] != c
      ensures Since(trace', t[i]) == Since(trace, callbacks[i]) && Last(trace', t[i]) == Last(trace, callbacks[i])
    {
      OthersUnchanged(trace, Added(c), callbacks[i]);
    }
    assert Distinct(t);
    assert Orderly(start, trace');
  }

  lemma {:induction false} RemoveStep(start: seq<nat>, trace: Trace, callbacks: seq<nat>, next: nat, c: nat)
    requires Standing(start, trace, callbacks, next)
    ensures Standing(start, trace + Recorded(callbacks, Remove(c)), RemoveFrom(callbacks, c),
                     NextAfterRemove(callbacks, next, c))
  {
    if c in callbacks {
      RemovePresent(start, trace, callbacks, next, c);
    } else {
      assert trace + [] == trace;
    }
  }

  /** Where an element that survives the removal at `k` was before. */
  function Was(i: nat, k: nat): nat { if i < k then i else i + 1 }

  lemma {:induction false} WithoutElements(s: seq<nat>, k: nat)
    requires k < |s| && Distinct(s)
    ensures forall i: nat {:trigger Without(s, k)[i]} :: i < |s| - 1 ==>
              Was(i, k) < |s| && Without(s, k)[i] == s[Was(i, k)] != s[k]
    ensures |Without(s, k)| == |s| - 1 && Distinct(Without(s, k))
  {
    forall i: nat | i < |s| - 1 ensures Without(s, k)[i] == s[Was(i, k)] != s[k] {
      assert Was(i, k) < k ==> s[Was(i, k)] != s[k];
      assert k < Was(i, k) ==> s[k] != s[Was(i, k)];
    }
  }

  /** What is known about the elements that survive a removal. */
  lemma {:induction false} SurvivorsUnchanged(trace: Trace, callbacks: seq<nat>, c: nat, i: nat)
    requires Distinct(callbacks) && c in callbacks && i < |callbacks| - 1
    ensures var (k, trace') := (Find(callbacks, c), trace + [Removed(c)]);
            && |Without(callbacks, k)| == |callbacks| - 1 && Was(i, k) < |callbacks|
            && var d := Without(callbacks, k)[i];
               && d == callbacks[Was(i, k)]
               && Since(trace', d) == Since(trace, d) && Last(trace', d) == Last(trace, d)
  {
    WithoutElements(callbacks, Find(callbacks, c));
    OthersUnchanged(trace, Removed(c), Without(callbacks, Find(callbacks, c))[i]);
  }

  lemma {:induction false} RemovePresent(start: seq<nat>, trace: Trace, callbacks: seq<nat>, next: nat, c: nat)
    requires Standing(start, trace, callbacks, next) && c in callbacks
    ensures Standing(start, trace + [Removed(c)], Without(callbacks, Find(callbacks, c)),
                     NextAfterRemove(callbacks, next, c))
  {
    var k, t := Find(callbacks, c), Without(callbacks, Find(callbacks, c));
    var trace' := trace + [Removed(c)];
    Grown(trace, Removed(c));
    WithoutElements(callbacks, k);
    forall i: nat | i < |t|
      ensures Since(trace', t[i]) == Since(trace, callbacks[Was(i, k)])
      ensures Last(trace', t[i]) == Last(trace, callbacks[Was(i, k)])
    {
      SurvivorsUnchanged(trace, callbacks, c, i);
    }
    assert Replay(start, trace') == t && Orderly(start, trace');
    SurvivorsStand(start, trace, trace', callbacks, next, c);
  }

  /** The survivors stand to the loop as they did before. */
  lemma {:induction false} SurvivorsStand(start: seq<nat>, trace: Trace, trace': Trace, callbacks: seq<nat>, next: nat,
                                          c: nat)
    requires Standing(start, trace, callbacks, next) && c in callbacks
    requires var (k, t) := (Find(callbacks, c), Without(callbacks, Find(callbacks, c)));
             && |t| == |callbacks| - 1 && Distinct(t)
             && forall i: nat {:trigger t[i]} :: i < |t| ==>
                  Since(trace', t[i]) == Since(trace, callbacks[Was(i, k)])
                  && Last(trace', t[i]) == Last(trace, callbacks[Was(i, k)])
    requires Replay(start, trace') == Without(callbacks, Find(callbacks, c)) && Orderly(start, trace')
    ensures Standing(start, trace', Without(callbacks, Find(callbacks, c)), NextAfterRemove(callbacks, next, c))
  {
    var k, t, n := Find(callbacks, c), Without(callbacks, Find(callbacks, c)), NextAfterRemove(callbacks, next, c);
    forall i: nat | i < |t| ensures Since(trace', t[i]) == if i < n then 1 else 0 {
      assert i < n <==> Was(i, k) < next;
    }
    forall i: nat, j: nat | i < j < n ensures Last(trace', t[i]) < Last(trace', t[j]) {
      assert Was(i, k) < Was(j, k) < next;
    }
  }

  /** How many additions a script still holds from position `k` on. */
  function Additions(script: seq<seq<Action>>, k: nat): nat
    decreases |script| - k
  {
    if k >= |script| then 0 else |script[k]| + Additions(script, k + 1)
  }

  lemma {:induction false} AdditionsNext(script: seq<seq<Action>>, k: nat)
    ensures Additions(script, k) == |ActionsAt(script, k)| + Additions(script, k + 1)
  {
  }

  /** Before the first invocation. */
  lemma {:induction false} StandsAtStart(start: seq<nat>)
    requires Distinct(start)
    ensures Standing(start, [], start, 0)
  {
  }

  class Registry {
    var callbacks: seq<nat>
    var nextIndex: Option<nat>

    ghost predicate Valid()
      reads this
    {
      Distinct(callbacks)
    }

    constructor ()
      ensures callbacks == [] && nextIndex == None && Valid()
    {
      callbacks := [];
      nextIndex := None;
    }

    method AddCallback(c: nat)
      requires Valid()
      modifies this`callbacks
      ensures Valid() && callbacks == AddTo(old(callbacks), c)
    {
      // Check if already added.
      if c in callbacks {
        return;
      }
      callbacks := callbacks + [c];
    }

    method RemoveCallback(c: nat)
      requires Valid()
      modifies this
      ensures Valid() && callbacks == RemoveFrom(old(callbacks), c)
      ensures nextIndex == if old(nextIndex).None? then None
                           else Some(NextAfterRemove(old(callbacks), old(nextIndex).value, c))
    {
      var existing := Find(callbacks, c);
      if existing == |callbacks| {
        return;
      }
      if nextIndex.Some? {
        // Actualize the next callback index after the erasure from the vector.
        if nextIndex.value > existing {
          nextIndex := Some(nextIndex.value - 1);
        }
      }
      callbacks := Without(callbacks, existing);
    }

    /** One action of a callback, and what it adds to the trace. */
    method PerformOne(action: Action, ghost start: seq<nat>, ghost trace: Trace) returns (more: Trace)
      requires nextIndex.Some? && Standing(start, trace, callbacks, nextIndex.value)
      modifies this
      ensures callbacks == Changed(old(callbacks), action) && more == Recorded(old(callbacks), action)
      ensures nextIndex.Some? && Standing(start, trace + more, callbacks, nextIndex.value)
      ensures |callbacks| - nextIndex.value <= old(|callbacks| - nextIndex.value) + 1
    {
      more := Recorded(callbacks, action);
      match action {
        case Add(c) =>
          AddStep(start, trace, callbacks, nextIndex.value, c);
          AddCallback(c);
        case Remove(c) =>
          RemoveStep(start, trace, callbacks, nextIndex.value, c);
          RemoveCallback(c);
      }
    }

    /** The actions of one callback. */
    method Perform(actions: seq<Action>, ghost start: seq<nat>, ghost trace: Trace) returns (recorded: Trace)
      requires nextIndex.Some? && Standing(start, trace, callbacks, nextIndex.value)
      modifies this
      ensures (callbacks, recorded) == Acted(old(callbacks), actions)
      ensures nextIndex.Some? && Standing(start, trace + recorded, callbacks, nextIndex.value)
      ensures |callbacks| - nextIndex.value <= old(|callbacks| - nextIndex.value) + |actions|
    {
      recorded := [];
      ghost var s := callbacks;
      assert trace + [] == trace && actions[..0] == [];
      for k := 0 to |actions|
        invariant nextIndex.Some? && Standing(start, trace + recorded, callbacks, nextIndex.value)
        invariant (callbacks, recorded) == Acted(s, actions[..k])
        invariant |callbacks| - nextIndex.value <= old(|callbacks| - nextIndex.value) + k
      {
        ActedNext(s, actions, k);
        recorded := PerformNext(actions[k], start, trace, recorded);
      }
      assert actions[..|actions|] == actions;
    }

    method PerformNext(action: Action, ghost start: seq<nat>, ghost trace: Trace, recorded: Trace)
      returns (recorded': Trace)
      requires nextIndex.Some? && Standing(start, trace + recorded, callbacks, nextIndex.value)
      modifies this
      ensures callbacks == Changed(old(callbacks), action)
      ensures recorded' == recorded + Recorded(old(callbacks), action)
      ensures nextIndex.Some? && Standing(start, trace + recorded', callbacks, nextIndex.value)
      ensures |callbacks| - nextIndex.value <= old(|callbacks| - nextIndex.value) + 1
    {
      var more := PerformOne(action, start, trace + recorded);
      assert trace + recorded + more == trace + (recorded + more);
      recorded' := recorded + more;
    }

    /** Tells every callback; the `k`-th one invoked does what the script says at `k`, if anything. */
    method PostGameConfigLoad(script: seq<seq<Action>>) returns (trace: Trace, ghost cuts: seq<nat>)
      requires Valid() && nextIndex.None?
      modifies this
      ensures Valid() && nextIndex.None?
      ensures Standing(old(callbacks), trace, callbacks, |callbacks|)
      ensures Scripted(old(callbacks), trace, script, cuts)
    {
      nextIndex := Some(0);
      StandsAtStart(callbacks);
      trace, cuts := InvokeAll(script, callbacks);
      nextIndex := None;
    }

    /** The loop, from the first callback on. */
    method InvokeAll(script: seq<seq<Action>>, ghost start: seq<nat>) returns (trace: Trace, ghost cuts: seq<nat>)
      requires nextIndex == Some(0) && Standing(start, [], callbacks, 0)
      modifies this
      ensures nextIndex.Some? && Standing(start, trace, callbacks, |callbacks|)
      ensures Scripted(start, trace, script, cuts)
    {
      trace, cuts := [], [];
      var k := 0;
      while nextIndex.Some? && nextIndex.value < |callbacks|
        invariant nextIndex.Some? && nextIndex.value <= |callbacks|
        invariant Standing(start, trace, callbacks, nextIndex.value) && Scripted(start, trace, script, cuts)
        invariant |cuts| == k
        decreases |callbacks| - nextIndex.value + Additions(script, k)
      {
        AdditionsNext(script, k);
        cuts := cuts + [|trace|];
        trace := InvokeNext(script, k, start, trace, cuts[..k]);
        k := k + 1;
      }
    }

    /** Invokes the callback the loop stands at, which then acts. */
    method InvokeNext(script: seq<seq<Action>>, k: nat, ghost start: seq<nat>, trace: Trace, ghost cuts: seq<nat>)
      returns (trace': Trace)
      requires nextIndex.Some? && nextIndex.value < |callbacks|
      requires Standing(start, trace, callbacks, nextIndex.value) && Scripted(start, trace, script, cuts) && |cuts| == k
      modifies this
      ensures nextIndex.Some? && Standing(start, trace', callbacks, nextIndex.value)
      ensures Scripted(start, trace', script, cuts + [|trace|]) && nextIndex.value <= |callbacks|
      ensures |callbacks| - nextIndex.value < old(|callbacks| - nextIndex.value) + |ActionsAt(script, k)|
    {
      var c := callbacks[nextIndex.value];
      InvokeStep(start, trace, callbacks, nextIndex.value);
      assert Replay(start, trace) == callbacks;
      nextIndex := Some(nextIndex.value + 1);
      var recorded := Perform(ActionsAt(script, k), start, trace + [Invoked(c)]);
      NextRound(start, trace, script, cuts, c, recorded);
      Joined(trace, Invoked(c), recorded);
      trace' := trace + [Invoked(c)] + recorded;
    }
  }

  // ----- what the loop's trace means

  /** A callback that was registered at the start and is never removed. */
  predicate Throughout(start: seq<nat>, trace: Trace, c: nat) {
    c in start && Removed(c) !in trace
  }

  lemma {:induction false} StaysRegistered(start: seq<nat>, trace: Trace, c: nat)
    requires Throughout(start, trace, c) && Orderly(start, trace)
    ensures c in Replay(start, trace) && Count(trace, c) == Since(trace, c)
  {
    if trace != [] {
      StaysRegistered(start, trace[..|trace| - 1], c);
    }
  }

  /** Whoever is registered throughout the loop is invoked exactly once. */
  lemma {:induction false} InvokedExactlyOnce(start: seq<nat>, trace: Trace, callbacks: seq<nat>, c: nat)
    requires Standing(start, trace, callbacks, |callbacks|) && Throughout(start, trace, c)
    ensures Count(trace, c) == 1
  {
    StaysRegistered(start, trace, c);
  }

  ghost predicate Before(s: seq<nat>, c: nat, d: nat) {
    exists i, j :: 0 <= i < j < |s| && s[i] == c && s[j] == d
  }

  lemma {:induction false} OrderStays(start: seq<nat>, trace: Trace, c: nat, d: nat)
    requires Before(start, c, d) && Throughout(start, trace, c) && Throughout(start, trace, d) && c != d
    ensures Before(Replay(start, trace), c, d)
  {
    if trace != [] {
      var earlier := Replay(start, trace[..|trace| - 1]);
      OrderStays(start, trace[..|trace| - 1], c, d);
      EffectKeepsOrder(earlier, trace[|trace| - 1], c, d);
    }
  }

  lemma {:induction false} EffectKeepsOrder(s: seq<nat>, h: Happening, c: nat, d: nat)
    requires Before(s, c, d) && h != Removed(c) && h != Removed(d)
    ensures Before(Effect(s, h), c, d)
  {
    var i, j :| 0 <= i < j < |s| && s[i] == c && s[j] == d;
    var t := Effect(s, h);
    if h.Added? {
      assert t[i] == c && t[j] == d;
    } else if h.Removed? && Find(s, h.callback) < |s| {
      WithoutKeepsOrder(s, Find(s, h.callback), i, j);
    }
  }

  lemma {:induction false} WithoutKeepsOrder(s: seq<nat>, k: nat, i: nat, j: nat)
    requires i < j < |s| && k < |s| && k != i && k != j
    ensures Before(Without(s, k), s[i], s[j])
  {
    var i', j' := if i < k then i else i - 1, if j < k then j else j - 1;
    assert Without(s, k)[i'] == s[i] && Without(s, k)[j'] == s[j];
  }

  /** They are invoked in the order in which they are registered. */
  lemma {:induction false} InvokedInOrder(start: seq<nat>, trace: Trace, callbacks: seq<nat>, c: nat, d: nat)
    requires Standing(start, trace, callbacks, |callbacks|) && Before(start, c, d) && c != d
    requires Throughout(start, trace, c) && Throughout(start, trace, d)
    ensures 0 <= Last(trace, c) < Last(trace, d)
  {
    OrderStays(start, trace, c, d);
    InvokedExactlyOnce(start, trace, callbacks, c);
    CountedHasLast(trace, c);
  }

  lemma {:induction false} CountedHasLast(trace: Trace, c: nat)
    requires Count(trace, c) > 0
    ensures Last(trace, c) >= 0
  {
    if trace[|trace| - 1] != Invoked(c) {
      CountedHasLast(trace[..|trace| - 1], c);
    }
  }

  /** Whoever is invoked is registered at that moment and was not invoked since it was added. */
  lemma {:induction false} InvokedWhileRegistered(start: seq<nat>, trace: Trace, k: nat)
    requires Orderly(start, trace) && k < |trace| && trace[k].Invoked?
    ensures trace[k].callback in Replay(start, trace[..k]) && Since(trace[..k], trace[k].callback) == 0
  {
    if k == |trace| - 1 {
    } else {
      assert trace[..|trace| - 1][..k] == trace[..k];
      InvokedWhileRegistered(start, trace[..|trace| - 1], k);
    }
  }
}
