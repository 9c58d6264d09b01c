/**
 * The response filter that injects code in front of the closing body tag
 * while the page is written to it chunk by chunk (`ToastFilter.Write`,
 * `ToastFilter.Flush`). Chunks are already-decoded text; the output stream
 * is modelled as the text written to it so far.
 */
module ToastFilter {
  import opened BodyTag

  /**
   * Characters held back when a chunk holds no tag: a tag split across two
   * chunks leaves at most six of its characters at the end of the first.
   */
  const Margin: nat := 10

  /**
   * `emitted` is everything written to the output stream so far; `pending`
   * is the withheld text, `UnwrittenCharactersFromPreviousCall` (null and
   * empty are both the empty string).
   */
  datatype Filter = Filter(emitted: string, pending: string)

  /** A freshly installed filter has written and withheld nothing. */
  const Init: Filter := Filter("", "")

  /** The chunks of a document, joined in order. */
  function Flatten(cs: seq<string>): string
  {
    if cs == [] then "" else cs[0] + Flatten(cs[1..])
  }

  /**
   * One call of `Write`: the withheld text is put in front of the chunk;
   * everything before the last tag of the result is written out and the rest
   * withheld, or, without a tag, all but the last `Margin` characters are
   * written.
   */
  function Write(f: Filter, chunk: string): (f': Filter)
    // the output stream only grows, and no text is lost, repeated or reordered
    ensures f.emitted <= f'.emitted
    ensures f'.emitted + f'.pending == f.emitted + (f.pending + chunk)
    // with a tag, exactly the text before the last tag is written out ...
    ensures Occurs(f.pending + chunk) ==> IsRightmost(f.pending + chunk, |f'.emitted| - |f.emitted|)
    // ... and the withheld text starts with that tag and holds no later one
    ensures Occurs(f.pending + chunk) ==> IsRightmost(f'.pending, 0)
    // without a tag, nothing is written out of ten characters or fewer ...
    ensures !Occurs(f.pending + chunk) && |f.pending + chunk| <= Margin ==>
              f'.emitted == f.emitted && f'.pending == f.pending + chunk
    // ... and exactly the last ten characters are withheld of a longer text
    ensures !Occurs(f.pending + chunk) && |f.pending + chunk| > Margin ==> |f'.pending| == Margin
  {
    var c := f.pending + chunk;
    match Rightmost(c)
    case Some(i) =>
      Emit(f.emitted, c, i);
      RightmostInSuffix(c, i, 0);
      Filter(f.emitted + c[..i], c[i..])
    case None =>
      if |c| <= Margin then Filter(f.emitted, c)
      else
        Emit(f.emitted, c, |c| - Margin);
        Filter(f.emitted + c[..|c| - Margin], c[|c| - Margin..])
  }

  /** A run of `Write` calls, one per chunk, in order. */
  function WriteAll(f: Filter, cs: seq<string>): Filter
    decreases |cs|
  {
    if cs == [] then f else WriteAll(Write(f, cs[0]), cs[1..])
  }

  /**
   * The replacement loop of `Flush`: each snippet, in injector order, plus a
   * lower-case tag replaces the last tag of the text rewritten so far.
   */
  function InjectAll(t: string, snippets: seq<string>): string
    decreases |snippets|
  {
    if snippets == [] then t
    else InjectAll(ReplaceRightmost(t, snippets[0] + Tag), snippets[1..])
  }

  /**
   * `Flush`: a non-empty withheld text is written out, with the snippets
   * spliced in front of its last tag if it has one. The withheld text is
   * not cleared.
   */
  function Flush(f: Filter, snippets: seq<string>): (f': Filter)
    ensures f'.pending == f.pending
    ensures f.pending == "" ==> f'.emitted == f.emitted
    ensures !Occurs(f.pending) || snippets == [] ==> f'.emitted == f.emitted + f.pending
    ensures forall i :: IsRightmost(f.pending, i) && snippets != [] ==>
              f'.emitted == f.emitted + (f.pending[..i] + Flatten(snippets) + Tag + f.pending[i + |Tag|..])
  {
    if f.pending == "" then f
    else
      match Rightmost(f.pending)
      case Some(i) =>
        RightmostUnique(f.pending);
        InjectAllSplices(f.pending, snippets, i);
        Filter(f.emitted + InjectAll(f.pending, snippets), f.pending)
      case None =>
        Filter(f.emitted + f.pending, f.pending)
  }

  /** Writing out the first `n` characters of `c` keeps the output a prefix and conserves text. */
  lemma Emit(e: string, c: string, n: nat)
    requires n <= |c|
    ensures e <= e + c[..n]
    ensures (e + c[..n]) + c[n..] == e + c
  {
    assert c[..n] + c[n..] == c;
  }

  /** The last tag of a suffix is the last tag of the whole text, shifted. */
  lemma RightmostInSuffix(t: string, k: nat, j: nat)
    requires k <= |t|
    ensures IsRightmost(t[k..], j) <==> IsRightmost(t, k + j)
  {
    MatchesInSuffix(t, k, j);
    if IsRightmost(t[k..], j) {
      forall m | k + j < m
        ensures !MatchesAt(t, m)
      {
        MatchesInSuffix(t, k, m - k);
      }
    }
    if IsRightmost(t, k + j) {
      forall m | j < m
        ensures !MatchesAt(t[k..], m)
      {
        MatchesInSuffix(t, k, m);
      }
    }
  }

  /** A suffix of a text without a tag has no tag either. */
  lemma NoTagInSuffix(t: string, k: nat)
    requires k <= |t| && !Occurs(t)
    ensures !Occurs(t[k..])
  {
    forall j: nat
      ensures !MatchesAt(t[k..], j)
    {
      MatchesInSuffix(t, k, j);
    }
  }

  /** A prefix of a text without a tag has no tag either. */
  lemma NoTagInPrefix(t: string, n: nat)
    requires n <= |t| && !Occurs(t)
    ensures !Occurs(t[..n])
  {
    forall j
      ensures !MatchesAt(t[..n], j)
    {
      MatchesInPrefix(t, n, j);
    }
  }

  /** Every tag of a text whose first `n` characters hold none ends after them. */
  lemma NoMatchInPrefix(t: string, n: nat)
    requires n <= |t| && !Occurs(t[..n])
    ensures forall j :: MatchesAt(t, j) ==> j + |Tag| > n
  {
    forall j | MatchesAt(t, j)
      ensures j + |Tag| > n
    {
      MatchesInPrefix(t, n, j);
    }
  }

  /** The two parts of a concatenation are recovered by slicing. */
  lemma Parts(a: string, b: string)
    ensures (a + b)[..|a|] == a && (a + b)[|a|..] == b
  {
  }

  /** Splitting a concatenation at the same length gives the same parts. */
  lemma SameSplit(a: string, b: string, x: string, y: string)
    requires a + b == x + y && |a| == |x|
    ensures a == x && b == y
  {
    Parts(a, b);
    Parts(x, y);
  }

  /** Regrouping a spliced text after one more snippet. */
  lemma Regroup(out: string, head: string, tail: string, pre: string, s0: string, rest: string, post: string)
    requires head == pre + s0 && tail == post
    requires out == head + rest + Tag + tail
    ensures out == pre + (s0 + rest) + Tag + post
  {
  }

  /** The parts around a spliced tag. */
  lemma SplicedParts(pre: string, x: string, post: string)
    ensures (pre + (x + Tag) + post)[..|pre| + |x|] == pre + x
    ensures (pre + (x + Tag) + post)[|pre| + |x| + |Tag|..] == post
    ensures pre + (x + Tag) + post == pre + (x + "") + Tag + post
  {
    assert pre + (x + Tag) + post == (pre + x) + Tag + post;
  }

  /** Appending chunks is appending the first, then the rest. */
  lemma AppendFlattenCons(d: string, cs: seq<string>)
    requires cs != []
    ensures d + Flatten(cs) == (d + cs[0]) + Flatten(cs[1..])
  {
  }

  /** One round of the injection loop over a text with a last tag at `i`. */
  lemma InjectOne(t: string, x: string, i: nat)
    requires IsRightmost(t, i)
    ensures ReplaceRightmost(t, x + Tag) == t[..i] + (x + Tag) + t[i + |Tag|..]
    ensures IsRightmost(ReplaceRightmost(t, x + Tag), i + |x|)
    ensures ReplaceRightmost(t, x + Tag)[..i + |x|] == t[..i] + x
    ensures ReplaceRightmost(t, x + Tag)[i + |x| + |Tag|..] == t[i + |Tag|..]
  {
    SpliceKeepsRightmost(t, i, x);
    SplicedParts(t[..i], x, t[i + |Tag|..]);
  }

  /** The injection loop over a text with a last tag at `i`. */
  lemma {:induction false} InjectAllSplices(t: string, snippets: seq<string>, i: nat)
    requires IsRightmost(t, i)
    ensures snippets != [] ==> InjectAll(t, snippets) == t[..i] + Flatten(snippets) + Tag + t[i + |Tag|..]
    decreases |snippets|
  {
    if snippets == [] {
      return;
    }
    var s0, rest := snippets[0], snippets[1..];
    var pre, post := t[..i], t[i + |Tag|..];
    InjectOne(t, s0, i);
    var t1 := ReplaceRightmost(t, s0 + Tag);
    var out := InjectAll(t, snippets);
    assert out == InjectAll(t1, rest);
    assert Flatten(snippets) == s0 + Flatten(rest);
    if rest == [] {
      SplicedParts(pre, s0, post);
    } else {
      var j := i + |s0|;
      var head, tail := t1[..j], t1[j + |Tag|..];
      assert head == pre + s0 && tail == post;
      InjectAllSplices(t1, rest, j);
      Regroup(out, head, tail, pre, s0, Flatten(rest), post);
    }
  }

  /**
   * The state a filter reaches after the document so far, `d`, has been
   * written to it in any chunks.
   */
  function Canonical(d: string): (f: Filter)
    ensures f.emitted + f.pending == d
    ensures Occurs(d) ==> IsRightmost(d, |f.emitted|)
    ensures !Occurs(d) ==> |f.pending| == if |d| <= Margin then |d| else Margin
  {
    var k :=
      match Rightmost(d)
      case Some(i) => i
      case None => if |d| <= Margin then 0 else |d| - Margin;
    Parts(d[..k], d[k..]);
    Filter(d[..k], d[k..])
  }

  /** The withheld text of a canonical state, plus a chunk, is a suffix of the longer document. */
  lemma CanonicalThenChunk(d: string, c: string)
    ensures Canonical(d).emitted + (Canonical(d).pending + c) == d + c
    ensures Canonical(d).pending + c == (d + c)[|Canonical(d).emitted|..]
    ensures (d + c)[..|d|] == d
  {
    var f := Canonical(d);
    assert f.emitted + (f.pending + c) == d + c;
    Parts(f.emitted, f.pending + c);
    Parts(d, c);
  }

  /** The last tag of `d + c` is never before the point where `d`'s output stream ends. */
  lemma LastTagAfterOutput(d: string, c: string, r: nat)
    requires IsRightmost(d + c, r)
    ensures |Canonical(d).emitted| <= r
  {
    var e := d + c;
    var k := |Canonical(d).emitted|;
    CanonicalThenChunk(d, c);
    if Occurs(d) {
      MatchesInPrefix(e, |d|, k);
    } else {
      NoMatchInPrefix(e, |d|);
    }
  }

  /** With a tag in `d + c`, writing `c` ends the output stream where `d + c`'s canonical state does. */
  lemma WriteFromCanonicalTag(d: string, c: string)
    requires Occurs(d + c)
    ensures |Write(Canonical(d), c).emitted| == |Canonical(d + c).emitted|
  {
    var e := d + c;
    var k := |Canonical(d).emitted|;
    var comb := Canonical(d).pending + c;
    CanonicalThenChunk(d, c);
    var r := Rightmost(e).value;
    LastTagAfterOutput(d, c, r);
    RightmostInSuffix(e, k, r - k);
    assert IsRightmost(comb, r - k);
    RightmostUnique(comb);
    RightmostUnique(e);
  }

  /** Without a tag in `d + c`, writing `c` withholds as much as `d + c`'s canonical state. */
  lemma WriteFromCanonicalNoTag(d: string, c: string)
    requires !Occurs(d + c)
    ensures |Write(Canonical(d), c).pending| == |Canonical(d + c).pending|
  {
    var k := |Canonical(d).emitted|;
    CanonicalThenChunk(d, c);
    NoTagInPrefix(d + c, |d|);
    NoTagInSuffix(d + c, k);
  }

  /** Writing one more chunk from the canonical state of `d` reaches that of `d + c`. */
  lemma WriteFromCanonical(d: string, c: string)
    ensures Write(Canonical(d), c) == Canonical(d + c)
  {
    var f' := Write(Canonical(d), c);
    var g := Canonical(d + c);
    CanonicalThenChunk(d, c);
    if Occurs(d + c) {
      WriteFromCanonicalTag(d, c);
    } else {
      WriteFromCanonicalNoTag(d, c);
    }
    SameSplit(f'.emitted, f'.pending, g.emitted, g.pending);
  }

  /** Writing chunks from the canonical state of `d` reaches that of `d` plus the chunks. */
  lemma {:induction false} WriteAllFromCanonical(d: string, cs: seq<string>)
    ensures WriteAll(Canonical(d), cs) == Canonical(d + Flatten(cs))
    decreases |cs|
  {
    if cs == [] {
      assert d + Flatten(cs) == d;
    } else {
      var d' := d + cs[0];
      WriteFromCanonical(d, cs[0]);
      WriteAllFromCanonical(d', cs[1..]);
      AppendFlattenCons(d, cs);
    }
  }

  /** From a fresh filter, any run of writes reaches the canonical state of the document. */
  lemma WriteAllFromInit(cs: seq<string>)
    ensures WriteAll(Init, cs) == Canonical(Flatten(cs))
  {
    assert Canonical("") == Init;
    WriteAllFromCanonical("", cs);
    assert "" + Flatten(cs) == Flatten(cs);
  }

  /**
   * Conservation: after any run of writes, the output stream followed by the
   * withheld text is the old such text followed by all chunks, and the
   * output stream only grew.
   */
  lemma {:induction false} Conservation(f: Filter, cs: seq<string>)
    ensures WriteAll(f, cs).emitted + WriteAll(f, cs).pending == f.emitted + f.pending + Flatten(cs)
    ensures f.emitted <= WriteAll(f, cs).emitted
    decreases |cs|
  {
    if cs != [] {
      var g := Write(f, cs[0]);
      Conservation(g, cs[1..]);
      ConservationStep(f.emitted, f.pending, cs[0], g.emitted, g.pending, cs);
    }
  }

  /** The sequence algebra behind one step of `Conservation`. */
  lemma ConservationStep(e: string, p: string, c: string, e': string, p': string, cs: seq<string>)
    requires cs != [] && c == cs[0]
    requires e' + p' == e + (p + c)
    ensures e' + p' + Flatten(cs[1..]) == e + p + Flatten(cs)
  {
    var rest := Flatten(cs[1..]);
    assert Flatten(cs) == c + rest;
    calc {
      e' + p' + rest;
      (e + (p + c)) + rest;
      e + p + (c + rest);
    }
  }

  /** The canonical state's withheld text starts at the last tag, if there is one. */
  lemma CanonicalPending(d: string)
    ensures Canonical(d).pending == d[|Canonical(d).emitted|..]
    ensures Occurs(d) ==> IsRightmost(Canonical(d).pending, 0)
    ensures !Occurs(d) ==> !Occurs(Canonical(d).pending)
  {
    var f := Canonical(d);
    Parts(f.emitted, f.pending);
    if Occurs(d) {
      RightmostInSuffix(d, |f.emitted|, 0);
    } else {
      NoTagInSuffix(d, |f.emitted|);
    }
  }

  /**
   * The state after writing a document in any chunks: the output stream ends
   * right before the document's last tag and the withheld text starts with
   * it; while no tag has been seen at most `Margin` characters are withheld.
   */
  lemma ReachableState(cs: seq<string>)
    ensures WriteAll(Init, cs).emitted + WriteAll(Init, cs).pending == Flatten(cs)
    ensures Occurs(Flatten(cs)) ==>
              IsRightmost(Flatten(cs), |WriteAll(Init, cs).emitted|) && IsRightmost(WriteAll(Init, cs).pending, 0)
    ensures !Occurs(Flatten(cs)) ==> |WriteAll(Init, cs).pending| <= Margin
    ensures !Occurs(Flatten(cs)) && |Flatten(cs)| >= Margin ==> |WriteAll(Init, cs).pending| == Margin
  {
    WriteAllFromInit(cs);
    CanonicalPending(Flatten(cs));
  }

  /**
   * Chunking independence: writing a document in any chunks leaves the
   * filter in the same state as writing it in one call.
   */
  lemma {:induction false} ChunkingIndependence(cs: seq<string>)
    ensures WriteAll(Init, cs) == Write(Init, Flatten(cs))
  {
    assert Canonical("") == Init;
    WriteAllFromInit(cs);
    WriteFromCanonical("", Flatten(cs));
    assert "" + Flatten(cs) == Flatten(cs);
  }

  /** The algebra of flushing a canonical state with a tag. */
  lemma FlushedParts(e: string, p: string, d: string, middle: string)
    requires e + p == d && |e| + |Tag| <= |d|
    ensures e + (p[..0] + middle + Tag + p[|Tag|..]) == d[..|e|] + middle + Tag + d[|e| + |Tag|..]
  {
    Parts(e, p);
    assert p[|Tag|..] == d[|e| + |Tag|..];
  }

  /** Flushing the canonical state of a document. */
  lemma FlushCanonical(d: string, snippets: seq<string>)
    ensures !Occurs(d) || snippets == [] ==> Flush(Canonical(d), snippets).emitted == d
    ensures forall i :: IsRightmost(d, i) && snippets != [] ==>
              Flush(Canonical(d), snippets).emitted == d[..i] + Flatten(snippets) + Tag + d[i + |Tag|..]
  {
    var f := Canonical(d);
    CanonicalPending(d);
    if Occurs(d) {
      RightmostUnique(d);
      FlushedParts(f.emitted, f.pending, d, Flatten(snippets));
    }
  }

  /** All text written to the output stream for a document and a list of snippets. */
  function Render(cs: seq<string>, snippets: seq<string>): string
  {
    Flush(WriteAll(Init, cs), snippets).emitted
  }

  /**
   * The whole response: the document with the snippets, in injector order,
   * and a lower-case tag in place of its last tag; the document unchanged if
   * it has no tag or there are no snippets. Text before the last tag,
   * earlier tags included, is never touched.
   */
  lemma RenderedDocument(cs: seq<string>, snippets: seq<string>)
    ensures !Occurs(Flatten(cs)) || snippets == [] ==> Render(cs, snippets) == Flatten(cs)
    ensures forall i :: IsRightmost(Flatten(cs), i) && snippets != [] ==>
              Render(cs, snippets) == Flatten(cs)[..i] + Flatten(snippets) + Tag + Flatten(cs)[i + |Tag|..]
  {
    WriteAllFromInit(cs);
    FlushCanonical(Flatten(cs), snippets);
  }

  /**
   * `Flush` does not clear the withheld text, so a second `Flush` writes it
   * out again, rewritten with whatever snippets the injectors give then.
   */
  lemma FlushRepeatsTail(f: Filter, s1: seq<string>, s2: seq<string>)
    ensures Flush(Flush(f, s1), s2).emitted ==
              Flush(f, s1).emitted + Flush(f, s2).emitted[|f.emitted|..]
  {
  }

  /**
   * Since `Flush` does not clear the withheld text, a `Write` after it puts
   * that text in front of the chunk again: without a tag in it, it reaches
   * the output stream twice.
   */
  lemma WriteAfterFlushRepeatsPending(f: Filter, snippets: seq<string>, c: string)
    requires !Occurs(f.pending)
    ensures Write(Flush(f, snippets), c).emitted + Write(Flush(f, snippets), c).pending ==
              f.emitted + f.pending + f.pending + c
  {
  }
}
