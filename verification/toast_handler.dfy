/**
 * The toast notification handler: a per-request FIFO queue of notifications
 * (`PushNotificationAsync`) and the code injector that drains it into a
 * toastr script (`GetCode`). The queue is an explicit value passed in and
 * returned, not ambient per-request storage.
 */
module ToastHandler {
  import opened Ascii
  import opened Wrappers
  import opened Notifications

  /** The only category the handler subscribes to. */
  const Categories: seq<string> := ["NOTIFICATION"]

  /** The handler's answer to a push and the queue afterwards. */
  datatype Pushed = Pushed(accepted: bool, queue: seq<Notification>)

  /**
   * `PushNotificationAsync`: a null notification (`None`) is refused;
   * any other is appended at the tail of the queue.
   */
  function Push(queue: seq<Notification>, n: Option<Notification>): (r: Pushed)
    ensures r.accepted <==> n.Some?
    ensures n.None? ==> r.queue == queue
    ensures n.Some? ==> |r.queue| == |queue| + 1 && r.queue[..|queue|] == queue && r.queue[|queue|] == n.value
  {
    match n
    case None => Pushed(false, queue)
    case Some(v) => Pushed(true, queue + [v])
  }

  /** A run of pushes, in order, starting from `queue`. */
  function PushAll(queue: seq<Notification>, ns: seq<Option<Notification>>): seq<Notification>
    decreases |ns|
  {
    if ns == [] then queue else PushAll(Push(queue, ns[0]).queue, ns[1..])
  }

  /** The notifications among `ns` that are not null, in order. */
  function Present(ns: seq<Option<Notification>>): seq<Notification>
  {
    if ns == [] then []
    else if ns[0].Some? then [ns[0].value] + Present(ns[1..])
    else Present(ns[1..])
  }

  /** The queue is a FIFO: pushes append the non-null notifications in push order. */
  lemma {:induction false} PushAllAppends(queue: seq<Notification>, ns: seq<Option<Notification>>)
    ensures PushAll(queue, ns) == queue + Present(ns)
    decreases |ns|
  {
    if ns != [] {
      PushAllAppends(Push(queue, ns[0]).queue, ns[1..]);
      if ns[0].Some? {
        assert queue + [ns[0].value] + Present(ns[1..]) == queue + ([ns[0].value] + Present(ns[1..]));
      }
    }
  }

  const ScriptOpen: string := "<script>"
  const ScriptClose: string := "</script>"
  const DirectiveOpen: string := "toastr['"
  const DirectiveMid: string := "'](\""
  const DirectiveClose: string := "\");"

  /** The message with every double quote replaced by a single quote. */
  function EscapeQuotes(m: string): (r: string)
    ensures |r| == |m|
    ensures '"' !in r
    ensures forall i :: 0 <= i < |m| && m[i] != '"' ==> r[i] == m[i]
    ensures forall i :: 0 <= i < |m| && m[i] == '"' ==> r[i] == '\''
  {
    seq(|m|, i requires 0 <= i < |m| => if m[i] == '"' then '\'' else m[i])
  }

  /** One toastr call for a notification: `toastr['<type>']("<message>");`. */
  function Directive(n: Notification): string
  {
    DirectiveOpen + Lower(n.kind) + DirectiveMid + EscapeQuotes(n.message) + DirectiveClose
  }

  /** The toastr calls for a queue, in queue order. */
  function Directives(q: seq<Notification>): string
    decreases |q|
  {
    if q == [] then "" else Directive(q[0]) + Directives(q[1..])
  }

  /** The script `GetCode` renders for a queue. */
  function Script(q: seq<Notification>): string
  {
    ScriptOpen + Directives(q) + ScriptClose
  }

  /**
   * `GetCode`: takes notifications from the head of the queue until it is
   * empty, appending one toastr call per notification to `<script>`, and
   * closes the script.
   */
  method GetCode(queue: seq<Notification>) returns (code: string, rest: seq<Notification>)
    ensures rest == []
    ensures code == Script(queue)
    ensures ScriptOpen <= code && |ScriptOpen| + |ScriptClose| <= |code|
    ensures code[|code| - |ScriptClose|..] == ScriptClose
    ensures queue == [] ==> code == "<script></script>"
  {
    code := ScriptOpen;
    rest := queue;
    while rest != []
      invariant |rest| <= |queue| && rest == queue[|queue| - |rest|..]
      invariant code + Directives(rest) == ScriptOpen + Directives(queue)
      decreases |rest|
    {
      TakeOne(code, rest, ScriptOpen + Directives(queue));
      code := code + Directive(rest[0]);
      rest := rest[1..];
    }
    CloseScript(code, queue);
    code := code + ScriptClose;
  }

  /** Taking the head of the queue moves its toastr call into the code. */
  lemma TakeOne(code: string, rest: seq<Notification>, target: string)
    requires rest != [] && code + Directives(rest) == target
    ensures (code + Directive(rest[0])) + Directives(rest[1..]) == target
  {
  }

  /** Closing the code once the queue is drained gives the whole script. */
  lemma CloseScript(code: string, queue: seq<Notification>)
    requires code + Directives([]) == ScriptOpen + Directives(queue)
    ensures code + ScriptClose == Script(queue)
    ensures ScriptOpen <= code + ScriptClose && |ScriptOpen| + |ScriptClose| <= |code + ScriptClose|
    ensures (code + ScriptClose)[|code + ScriptClose| - |ScriptClose|..] == ScriptClose
  {
    assert code == ScriptOpen + Directives(queue);
    Unwrap(ScriptOpen, Directives(queue), ScriptClose);
  }

  /** Rendering distributes over joining queues. */
  lemma {:induction false} DirectivesAppend(a: seq<Notification>, b: seq<Notification>)
    ensures Directives(a + b) == Directives(a) + Directives(b)
    decreases |a|
  {
    if a == [] {
      assert a + b == b;
    } else {
      assert (a + b)[1..] == a[1..] + b;
      DirectivesAppend(a[1..], b);
    }
  }

  /**
   * FIFO rendering: after pushing a run of notifications onto an empty queue,
   * the script holds one toastr call per non-null notification, in push order.
   */
  lemma PushesRenderInOrder(ns: seq<Option<Notification>>)
    ensures Script(PushAll([], ns)) == ScriptOpen + Directives(Present(ns)) + ScriptClose
  {
    PushAllAppends([], ns);
    assert [] + Present(ns) == Present(ns);
  }

  /** A pushed notification is rendered after every notification already queued. */
  lemma PushRendersLast(queue: seq<Notification>, n: Notification)
    ensures Script(Push(queue, Some(n)).queue) == ScriptOpen + Directives(queue) + Directive(n) + ScriptClose
  {
    DirectivesAppend(queue, [n]);
    assert Directives([n]) == Directive(n) + Directives([]);
    WrapLast(ScriptOpen, Directives(queue), Directive(n), ScriptClose);
  }

  /**
   * The sequence algebra behind `PushRendersLast`, kept apart so that it is
   * proved without the rendering functions in scope.
   */
  lemma WrapLast(a: string, b: string, c: string, d: string)
    ensures a + (b + (c + "")) + d == a + b + c + d
  {
  }

  /** A toastr call read back from a script: its type and message arguments. */
  datatype Toast = Toast(kind: string, text: string)

  /** What the script shows of a notification: the lower-cased type and the escaped message. */
  function Shown(n: Notification): Toast
  {
    Toast(Lower(n.kind), EscapeQuotes(n.message))
  }

  /** What the script shows of a queue, in queue order. */
  function ShownAll(q: seq<Notification>): seq<Toast>
    decreases |q|
  {
    if q == [] then [] else [Shown(q[0])] + ShownAll(q[1..])
  }

  /** Splits `s` at the first occurrence of `c`, dropping it. */
  function SplitAtFirst(s: string, c: char): (r: Option<(string, string)>)
    ensures r.Some? ==> c !in r.value.0 && s == r.value.0 + [c] + r.value.1
    ensures r.None? ==> c !in s
    decreases |s|
  {
    if s == [] then None
    else if s[0] == c then Some(([], s[1..]))
    else
      match SplitAtFirst(s[1..], c)
      case None => None
      case Some(p) => Some(([s[0]] + p.0, p.1))
  }

  /**
   * Reads a run of toastr calls back into their arguments; `None` if the
   * text is not such a run.
   */
  function ParseDirectives(s: string): Option<seq<Toast>>
    decreases |s|
  {
    if s == [] then Some([])
    else if !(DirectiveOpen <= s) then None
    else
      match SplitAtFirst(s[|DirectiveOpen|..], '\'')
      case None => None
      case Some(p1) =>
        if !(DirectiveMid[1..] <= p1.1) then None
        else
          match SplitAtFirst(p1.1[|DirectiveMid| - 1..], '"')
          case None => None
          case Some(p2) =>
            if !(DirectiveClose[1..] <= p2.1) then None
            else
              match ParseDirectives(p2.1[|DirectiveClose| - 1..])
              case None => None
              case Some(ts) => Some([Toast(p1.0, p2.0)] + ts)
  }

  /** Reads a rendered script back into the arguments of its toastr calls. */
  function ParseScript(code: string): Option<seq<Toast>>
  {
    if ScriptOpen <= code && |ScriptOpen| + |ScriptClose| <= |code|
       && code[|code| - |ScriptClose|..] == ScriptClose
    then ParseDirectives(code[|ScriptOpen|..|code| - |ScriptClose|])
    else None
  }

  /** Splitting at the first `c` finds the `c` that follows a `c`-free prefix. */
  lemma {:induction false} SplitAtFirstOf(x: string, c: char, y: string)
    requires c !in x
    ensures SplitAtFirst(x + ([c] + y), c) == Some((x, y))
    decreases |x|
  {
    var s := x + ([c] + y);
    if x == [] {
      assert s == [c] + y;
    } else {
      assert s[0] == x[0];
      assert s[1..] == x[1..] + ([c] + y);
      SplitAtFirstOf(x[1..], c, y);
      assert [x[0]] + x[1..] == x;
    }
  }

  /** A prefix is recognised and dropped. */
  lemma PrefixParts(a: string, b: string)
    ensures a <= a + b && (a + b)[|a|..] == b
  {
  }

  /** A lower-cased type keeps its single quotes, and gains none. */
  lemma LowerKeepsQuotes(k: string)
    requires '\'' !in k
    ensures '\'' !in Lower(k)
  {
    forall i | 0 <= i < |k|
      ensures Lower(k)[i] != '\''
    {
      LowerCharNonLetter(k[i], '\'');
    }
  }

  /** A toastr call laid out as the parser reads it. */
  lemma DirectiveShape(t: string, m: string, rest: string)
    ensures DirectiveOpen + t + DirectiveMid + m + DirectiveClose + rest ==
            DirectiveOpen + (t + (['\''] + (DirectiveMid[1..] + (m + (['"'] + (DirectiveClose[1..] + rest))))))
  {
    assert DirectiveMid == ['\''] + DirectiveMid[1..];
    assert DirectiveClose == ['"'] + DirectiveClose[1..];
  }

  /** Reading back one toastr call followed by more text. */
  lemma ParseOne(n: Notification, rest: string)
    requires '\'' !in n.kind
    ensures ParseDirectives(Directive(n) + rest) ==
              match ParseDirectives(rest)
              case None => None
              case Some(ts) => Some([Shown(n)] + ts)
  {
    var t, m := Lower(n.kind), EscapeQuotes(n.message);
    LowerKeepsQuotes(n.kind);
    var d := DirectiveClose[1..] + rest;
    var c := m + (['"'] + d);
    var b := DirectiveMid[1..] + c;
    var a := t + (['\''] + b);
    DirectiveShape(t, m, rest);
    assert Directive(n) + rest == DirectiveOpen + a;
    PrefixParts(DirectiveOpen, a);
    SplitAtFirstOf(t, '\'', b);
    PrefixParts(DirectiveMid[1..], c);
    SplitAtFirstOf(m, '"', d);
    PrefixParts(DirectiveClose[1..], rest);
  }

  /** The toastr calls of a queue read back into what they show, in order. */
  lemma {:induction false} DirectivesRoundTrip(q: seq<Notification>)
    requires forall i :: 0 <= i < |q| ==> '\'' !in q[i].kind
    ensures ParseDirectives(Directives(q)) == Some(ShownAll(q))
    decreases |q|
  {
    if q != [] {
      ParseOne(q[0], Directives(q[1..]));
      DirectivesRoundTrip(q[1..]);
    }
  }

  /** The parts of a wrapped text. */
  lemma Unwrap(a: string, b: string, c: string)
    ensures a <= a + b + c && |a| + |c| <= |a + b + c|
    ensures (a + b + c)[|a + b + c| - |c|..] == c
    ensures (a + b + c)[|a|..|a + b + c| - |c|] == b
  {
  }

  /**
   * The rendered script reads back into the queued notifications' lower-cased
   * types and escaped messages, one toastr call each, in FIFO order,
   * provided no type contains a single quote (types are not escaped).
   */
  lemma ScriptRoundTrip(q: seq<Notification>)
    requires forall i :: 0 <= i < |q| ==> '\'' !in q[i].kind
    ensures ParseScript(Script(q)) == Some(ShownAll(q))
    ensures |ShownAll(q)| == |q|
  {
    Unwrap(ScriptOpen, Directives(q), ScriptClose);
    DirectivesRoundTrip(q);
    ShownAllLength(q);
  }

  lemma {:induction false} ShownAllLength(q: seq<Notification>)
    ensures |ShownAll(q)| == |q|
    decreases |q|
  {
    if q != [] {
      ShownAllLength(q[1..]);
    }
  }

  /**
   * Types are not escaped: a single quote in a type ends the toastr call's
   * first argument early, and the script no longer reads back.
   */
  lemma QuoteInTypeBreaksScript()
    ensures ParseScript(Script([Notification("a'", "m")])) == None
  {
    var n := Notification("a'", "m");
    var t := "a'";
    var rest := ['\''] + (DirectiveMid[1..] + ("m" + (['"'] + DirectiveClose[1..])));
    assert Lower(n.kind) == t;
    assert EscapeQuotes(n.message) == "m";
    DirectiveShape(t, "m", []);
    assert Directives([n]) == Directive(n) + [];
    assert Directive(n) == DirectiveOpen + ("a" + (['\''] + rest));
    Unwrap(ScriptOpen, Directives([n]), ScriptClose);
    PrefixParts(DirectiveOpen, "a" + (['\''] + rest));
    SplitAtFirstOf("a", '\'', rest);
    var s := Directives([n]);
    assert s[|DirectiveOpen|..] == "a" + (['\''] + rest);
    assert !(DirectiveMid[1..] <= rest) by {
      assert rest[0] == '\'' && DirectiveMid[1..][0] == ']';
    }
    assert ParseDirectives(s) == None;
  }
}
