/**
 * The toast handler registered with the notification center: a post to
 * its category lands in its queue, and the queue renders into the script
 * the page filter injects.
 */
module ToastApp {
  import opened Ascii
  import opened Wrappers
  import opened Notifications
  import ToastHandler
  import NotificationCenter

  /** The category the demo application posts to. */
  const Posted: string := "NOTIFICATION"

  /** The toast handler as the center sees it, for a post of `n` onto `queue`. */
  function ToastEntry(queue: seq<Notification>, n: Option<Notification>): NotificationCenter.Entry
  {
    NotificationCenter.Ready(
      NotificationCenter.Handler(ToastHandler.Categories, NotificationCenter.Ok(ToastHandler.Push(queue, n).accepted)))
  }

  /** The toast handler takes exactly the posts whose category is `NOTIFICATION` in any case. */
  lemma ToastSubscribes(queue: seq<Notification>, n: Option<Notification>, category: string)
    ensures NotificationCenter.Subscribes(ToastEntry(queue, n).handler, category)
            <==> EqualsIgnoreCase(category, Posted)
  {
    var cats := ToastHandler.Categories;
    assert NotificationCenter.AnyCategory(cats, category) <==> EqualsIgnoreCase(cats[0], category);
  }

  /** A center holding only the toast handler succeeds, and pushes to it exactly for its category. */
  lemma ToastReached(queue: seq<Notification>, n: Option<Notification>, category: string)
    ensures NotificationCenter.Post([ToastEntry(queue, n)], category).result
    ensures NotificationCenter.Post([ToastEntry(queue, n)], category).deliveries != []
            <==> EqualsIgnoreCase(category, Posted)
  {
    var p := NotificationCenter.Post([ToastEntry(queue, n)], category);
    ToastSubscribes(queue, n, category);
    if EqualsIgnoreCase(category, Posted) {
      assert exists k :: 0 <= k < |p.deliveries| && p.deliveries[k].index == 0;
    }
  }

  /**
   * Posts `n` to `category` through a center whose registry holds only the
   * toast handler; answers the center's result and the handler's queue.
   */
  function PostToToast(queue: seq<Notification>, category: string, n: Option<Notification>)
    : (r: (bool, seq<Notification>))
    ensures r.0
    ensures EqualsIgnoreCase(category, Posted) && n.Some? ==> r.1 == queue + [n.value]
    ensures !(EqualsIgnoreCase(category, Posted) && n.Some?) ==> r.1 == queue
  {
    var p := NotificationCenter.Post([ToastEntry(queue, n)], category);
    ToastReached(queue, n, category);
    (p.result, if p.deliveries != [] then ToastHandler.Push(queue, n).queue else queue)
  }

  /** Posts every notification in turn to `category`. */
  function PostAllToToast(queue: seq<Notification>, category: string, ns: seq<Notification>)
    : seq<Notification>
    decreases |ns|
  {
    if ns == [] then queue
    else PostAllToToast(PostToToast(queue, category, Some(ns[0])).1, category, ns[1..])
  }

  /** Posts to the toast category queue up in posting order; others leave the queue alone. */
  lemma {:induction false} PostAllQueues(queue: seq<Notification>, category: string, ns: seq<Notification>)
    ensures EqualsIgnoreCase(category, Posted) ==> PostAllToToast(queue, category, ns) == queue + ns
    ensures !EqualsIgnoreCase(category, Posted) ==> PostAllToToast(queue, category, ns) == queue
    decreases |ns|
  {
    if ns != [] {
      var q1 := PostToToast(queue, category, Some(ns[0])).1;
      PostAllQueues(q1, category, ns[1..]);
      if EqualsIgnoreCase(category, Posted) {
        assert queue + [ns[0]] + ns[1..] == queue + ns;
      }
    }
  }

  /**
   * The notifications posted to the toast category, from an empty queue,
   * read back from the rendered script in posting order.
   */
  lemma {:induction false} PostedThenRendered(category: string, ns: seq<Notification>)
    requires EqualsIgnoreCase(category, Posted)
    requires forall i :: 0 <= i < |ns| ==> '\'' !in ns[i].kind
    ensures ToastHandler.ParseScript(ToastHandler.Script(PostAllToToast([], category, ns)))
            == Some(ToastHandler.ShownAll(ns))
  {
    PostAllQueues([], category, ns);
    assert [] + ns == ns;
    ToastHandler.ScriptRoundTrip(ns);
  }
}
