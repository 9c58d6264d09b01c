/**
 * The notification center: a post fans out to every registered handler
 * that lists the posted category, compared ignoring case.
 */
module NotificationCenter {
  import opened Ascii
  import opened Wrappers

  /** What one handler's push does: it completes with a flag, or it throws. */
  datatype PushOutcome = Ok(accepted: bool) | Fail

  /** A handler: the categories it lists, and what pushing to it does. */
  datatype Handler = Handler(categories: seq<string>, outcome: PushOutcome)

  /**
   * A registry entry: a composed handler, or one whose lazy construction
   * throws the first time the center looks at it.
   */
  datatype Entry = Ready(handler: Handler) | Broken

  /** One push the center performed: to which entry, and how it ended. */
  datatype Delivery = Delivery(index: nat, outcome: PushOutcome)

  /** The answer to a post, and the pushes it performed in order. */
  datatype Posted = Posted(result: bool, deliveries: seq<Delivery>)

  /** Some category in the list equals `category`, ignoring case. */
  function AnyCategory(categories: seq<string>, category: string): (b: bool)
    ensures b <==> exists i :: 0 <= i < |categories| && EqualsIgnoreCase(categories[i], category)
    decreases |categories|
  {
    if categories == [] then false
    else if EqualsIgnoreCase(categories[0], category) then true
    else
      var b := AnyCategory(categories[1..], category);
      assert forall i :: 1 <= i < |categories| ==> categories[i] == categories[1..][i - 1];
      b
  }

  /** The handler takes notifications posted to `category`. */
  predicate Subscribes(h: Handler, category: string) {
    AnyCategory(h.categories, category)
  }

  /** A handler subscribes when one of its categories and the posted one lower-case alike. */
  lemma SubscribesIffLowerEqual(h: Handler, category: string)
    ensures Subscribes(h, category) <==>
              exists i :: 0 <= i < |h.categories| && Lower(h.categories[i]) == Lower(category)
  {
    forall i | 0 <= i < |h.categories|
      ensures EqualsIgnoreCase(h.categories[i], category) <==> Lower(h.categories[i]) == Lower(category)
    {
      EqualsIgnoreCaseIffLowerEqual(h.categories[i], category);
    }
  }

  /**
   * Selects, in registry order, the entries from `from` on whose handler
   * subscribes to `category`; every entry is constructed on the way, so a
   * broken entry anywhere makes the whole selection fail.
   */
  function SelectFrom(registry: seq<Entry>, category: string, from: nat): (r: Option<seq<nat>>)
    requires from <= |registry|
    ensures r.None? <==> exists i :: from <= i < |registry| && registry[i].Broken?
    ensures r.Some? ==> forall k :: 0 <= k < |r.value| ==>
              from <= r.value[k] < |registry| && registry[r.value[k]].Ready?
              && Subscribes(registry[r.value[k]].handler, category)
    ensures r.Some? ==> forall i ::
              (from <= i < |registry| && registry[i].Ready? && Subscribes(registry[i].handler, category))
              ==> i in r.value
    ensures r.Some? ==> forall k, l :: 0 <= k < l < |r.value| ==> r.value[k] < r.value[l]
    decreases |registry| - from
  {
    if from == |registry| then Some([])
    else
      match registry[from]
      case Broken => None
      case Ready(h) =>
        match SelectFrom(registry, category, from + 1)
        case None => None
        case Some(rest) => Some(if Subscribes(h, category) then [from] + rest else rest)
  }

  /**
   * Pushes to each selected entry in turn. A push that throws is caught
   * and the loop goes on, so every selected entry is pushed.
   */
  function PushEach(registry: seq<Entry>, subs: seq<nat>): (ds: seq<Delivery>)
    requires forall k :: 0 <= k < |subs| ==> subs[k] < |registry| && registry[subs[k]].Ready?
    ensures |ds| == |subs|
    ensures forall k :: 0 <= k < |subs| ==>
              ds[k] == Delivery(subs[k], registry[subs[k]].handler.outcome)
    decreases |subs|
  {
    if subs == [] then []
    else
      // a push that throws (`Fail`) is caught inside the loop and logged
      // like any other outcome; the next selected entry is pushed regardless
      [Delivery(subs[0], registry[subs[0]].handler.outcome)] + PushEach(registry, subs[1..])
  }

  /**
   * Posts a notification to `category`: true once the selection succeeds,
   * whatever the pushes do; false, with no push, when an entry is broken.
   */
  function Post(registry: seq<Entry>, category: string): (p: Posted)
    ensures p.result <==> forall i :: 0 <= i < |registry| ==> registry[i].Ready?
    ensures !p.result ==> p.deliveries == []
    ensures forall k :: 0 <= k < |p.deliveries| ==>
              p.deliveries[k].index < |registry| && registry[p.deliveries[k].index].Ready?
              && Subscribes(registry[p.deliveries[k].index].handler, category)
              && p.deliveries[k].outcome == registry[p.deliveries[k].index].handler.outcome
    ensures p.result ==> forall i :: 0 <= i < |registry| && Subscribes(registry[i].handler, category) ==>
              exists k :: 0 <= k < |p.deliveries| && p.deliveries[k].index == i
    ensures forall k, l :: 0 <= k < l < |p.deliveries| ==>
              p.deliveries[k].index < p.deliveries[l].index
  {
    match SelectFrom(registry, category, 0)
    case None => Posted(false, [])
    case Some(subs) => Posted(true, PushEach(registry, subs))
  }

  /** The entries of a post's pushes, in order. */
  function Indices(ds: seq<Delivery>): seq<nat>
    decreases |ds|
  {
    if ds == [] then [] else [ds[0].index] + Indices(ds[1..])
  }

  /** Which entries are pushed depends only on the registry's shape and categories. */
  predicate SameShape(r1: seq<Entry>, r2: seq<Entry>) {
    |r1| == |r2|
    && forall i :: 0 <= i < |r1| ==>
         r1[i].Ready? == r2[i].Ready?
         && (r1[i].Ready? ==> r1[i].handler.categories == r2[i].handler.categories)
  }

  lemma {:induction false} SelectIgnoresOutcomes(r1: seq<Entry>, r2: seq<Entry>, category: string, from: nat)
    requires SameShape(r1, r2) && from <= |r1|
    ensures SelectFrom(r1, category, from) == SelectFrom(r2, category, from)
    decreases |r1| - from
  {
    if from < |r1| {
      SelectIgnoresOutcomes(r1, r2, category, from + 1);
    }
  }

  lemma {:induction false} IndicesOfPushEach(registry: seq<Entry>, subs: seq<nat>)
    requires forall k :: 0 <= k < |subs| ==> subs[k] < |registry| && registry[subs[k]].Ready?
    ensures Indices(PushEach(registry, subs)) == subs
    decreases |subs|
  {
    if subs != [] {
      IndicesOfPushEach(registry, subs[1..]);
      assert [subs[0]] + subs[1..] == subs;
    }
  }

  /**
   * The answer and the entries pushed do not depend on what the pushes
   * do: failures and refusals change neither.
   */
  lemma OutcomesIgnored(r1: seq<Entry>, r2: seq<Entry>, category: string)
    requires SameShape(r1, r2)
    ensures Post(r1, category).result == Post(r2, category).result
    ensures Indices(Post(r1, category).deliveries) == Indices(Post(r2, category).deliveries)
  {
    SelectIgnoresOutcomes(r1, r2, category, 0);
    var s := SelectFrom(r1, category, 0);
    if s.Some? {
      IndicesOfPushEach(r1, s.value);
      IndicesOfPushEach(r2, s.value);
    }
  }

  /** A post nobody subscribes to succeeds and pushes nothing. */
  lemma NoSubscriber(registry: seq<Entry>, category: string)
    requires forall i :: 0 <= i < |registry| ==> registry[i].Ready?
    requires forall i :: 0 <= i < |registry| ==> !Subscribes(registry[i].handler, category)
    ensures Post(registry, category) == Posted(true, [])
  {
  }

  /** A broken entry makes the post fail before any push. */
  lemma BrokenEntry(registry: seq<Entry>, category: string, i: nat)
    requires i < |registry| && registry[i].Broken?
    ensures Post(registry, category) == Posted(false, [])
  {
  }
}
