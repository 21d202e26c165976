/**
 * The context string handed to the prompt: the retrieved texts joined by a
 * fixed separator, as Python's `str.join` does.
 */
module Context {

  /** The separator both applications put between retrieved texts. */
  const Separator: string := "\n\n---\n\n"

  /** Python's `sep.join(xs)`. */
  function Join(xs: seq<string>, sep: string): string
  {
    if xs == [] then ""
    else if |xs| == 1 then xs[0]
    else xs[0] + sep + Join(xs[1..], sep)
  }

  /** The offset in `Join(xs, sep)` at which `xs[i]` begins. */
  function Start(xs: seq<string>, sep: string, i: nat): nat
    requires i < |xs|
  {
    if i == 0 then 0 else |xs[0]| + |sep| + Start(xs[1..], sep, i - 1)
  }

  lemma SliceAfter(a: string, b: string, lo: nat, hi: nat)
    requires lo <= hi <= |b|
    ensures (a + b)[|a| + lo..|a| + hi] == b[lo..hi]
  {
  }

  /** `xs[i]` sits in `Join(xs, sep)` at offset `Start(xs, sep, i)`. */
  lemma {:induction false} JoinText(xs: seq<string>, sep: string, i: nat)
    requires i < |xs|
    ensures Start(xs, sep, i) + |xs[i]| <= |Join(xs, sep)|
    ensures Join(xs, sep)[Start(xs, sep, i)..Start(xs, sep, i) + |xs[i]|] == xs[i]
    ensures i == |xs| - 1 ==> |Join(xs, sep)| == Start(xs, sep, i) + |xs[i]|
    decreases i
  {
    if |xs| > 1 {
      var rest := Join(xs[1..], sep);
      assert Join(xs, sep) == (xs[0] + sep) + rest;
      if i > 0 {
        JoinText(xs[1..], sep, i - 1);
        var s := Start(xs[1..], sep, i - 1);
        SliceAfter(xs[0] + sep, rest, s, s + |xs[i]|);
      }
    }
  }

  /** A separator stands right before every text but the first. */
  lemma {:induction false} JoinSeparator(xs: seq<string>, sep: string, i: nat)
    requires 0 < i < |xs|
    ensures |sep| <= Start(xs, sep, i) <= |Join(xs, sep)|
    ensures Join(xs, sep)[Start(xs, sep, i) - |sep|..Start(xs, sep, i)] == sep
    decreases i
  {
    var rest := Join(xs[1..], sep);
    assert Join(xs, sep) == (xs[0] + sep) + rest;
    JoinText(xs[1..], sep, i - 1);
    if i > 1 {
      JoinSeparator(xs[1..], sep, i - 1);
      var s := Start(xs[1..], sep, i - 1);
      SliceAfter(xs[0] + sep, rest, s - |sep|, s);
    }
  }

  /** Each text of `xs` sits in `ctx` at its offset. */
  predicate TextsAt(xs: seq<string>, sep: string, ctx: string)
  {
    forall i :: 0 <= i < |xs| ==>
      Start(xs, sep, i) + |xs[i]| <= |ctx| &&
      ctx[Start(xs, sep, i)..Start(xs, sep, i) + |xs[i]|] == xs[i]
  }

  /** A separator stands in `ctx` right before every text of `xs` but the first. */
  predicate SeparatorsAt(xs: seq<string>, sep: string, ctx: string)
  {
    forall i :: 0 < i < |xs| ==>
      |sep| <= Start(xs, sep, i) <= |ctx| &&
      ctx[Start(xs, sep, i) - |sep|..Start(xs, sep, i)] == sep
  }

  /**
   * `ctx` lays out `xs` with `sep` between consecutive texts: each text at
   * its offset, a separator right before every text but the first, and
   * nothing after the last.
   */
  predicate Layout(xs: seq<string>, sep: string, ctx: string)
  {
    && (xs == [] ==> ctx == "")
    && TextsAt(xs, sep, ctx)
    && SeparatorsAt(xs, sep, ctx)
    && (xs != [] ==> |ctx| == Start(xs, sep, |xs| - 1) + |xs[|xs| - 1]|)
  }

  lemma JoinTexts(xs: seq<string>, sep: string)
    ensures TextsAt(xs, sep, Join(xs, sep))
  {
    forall i | 0 <= i < |xs|
      ensures Start(xs, sep, i) + |xs[i]| <= |Join(xs, sep)| &&
              Join(xs, sep)[Start(xs, sep, i)..Start(xs, sep, i) + |xs[i]|] == xs[i]
    {
      JoinText(xs, sep, i);
    }
  }

  lemma JoinSeparators(xs: seq<string>, sep: string)
    ensures SeparatorsAt(xs, sep, Join(xs, sep))
  {
    forall i | 0 < i < |xs|
      ensures |sep| <= Start(xs, sep, i) <= |Join(xs, sep)| &&
              Join(xs, sep)[Start(xs, sep, i) - |sep|..Start(xs, sep, i)] == sep
    {
      JoinSeparator(xs, sep, i);
    }
  }

  /** `sep.join(xs)` lays the texts out in order. */
  lemma JoinLayout(xs: seq<string>, sep: string)
    ensures Layout(xs, sep, Join(xs, sep))
  {
    JoinTexts(xs, sep);
    JoinSeparators(xs, sep);
    if xs != [] {
      JoinText(xs, sep, |xs| - 1);
    }
  }

  /** The context string handed to the prompt: the retrieved texts joined by `Separator`. */
  function BuildContext(xs: seq<string>): (ctx: string)
    ensures Layout(xs, Separator, ctx)
  {
    JoinLayout(xs, Separator);
    Join(xs, Separator)
  }
}
