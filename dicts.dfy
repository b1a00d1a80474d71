/** The dict-building loop the scraper uses twice: start from `{}`, walk a
    list of items, compute a key and a value from each, and store
    `d[key] = value`; an item whose key or value cannot be computed raises
    and ends the whole call.
 */
module Dicts {
  import opened Results

  /** One `d[key] = value` store. */
  type Entry = (string, string)

  /** The dict left after storing every entry in order, starting from `{}`. */
  function Assemble(es: seq<Entry>): map<string, string>
  {
    if es == [] then map[] else Assemble(es[..|es| - 1])[es[|es| - 1].0 := es[|es| - 1].1]
  }

  /** Entry `j` is the last store to key `k`. */
  predicate IsLastWrite(es: seq<Entry>, j: int, k: string) {
    0 <= j < |es| && es[j].0 == k && forall j' :: j < j' < |es| ==> es[j'].0 != k
  }

  /** The keys of the dict are exactly the keys that were stored. */
  lemma {:induction false} AssembleKeys(es: seq<Entry>)
    ensures Assemble(es).Keys == set i | 0 <= i < |es| :: es[i].0
  {
    if es != [] {
      var init := es[..|es| - 1];
      AssembleKeys(init);
      var s := set i | 0 <= i < |es| :: es[i].0;
      var t := set i | 0 <= i < |init| :: init[i].0;
      assert s == t + {es[|es| - 1].0} by {
        forall k | k in s ensures k in t + {es[|es| - 1].0} {
          var i :| 0 <= i < |es| && es[i].0 == k;
          if i < |init| { assert init[i].0 == k; }
        }
        forall k | k in t ensures k in s {
          var i :| 0 <= i < |init| && init[i].0 == k;
          assert es[i].0 == k;
        }
      }
    }
  }

  /** Last write wins: the value under a key is the one of the last store to it. */
  lemma {:induction false} AssembleLastWins(es: seq<Entry>, j: int, k: string)
    requires IsLastWrite(es, j, k)
    ensures k in Assemble(es) && Assemble(es)[k] == es[j].1
  {
    if j < |es| - 1 {
      var init := es[..|es| - 1];
      assert IsLastWrite(init, j, k) by {
        forall j' | j < j' < |init| ensures init[j'].0 != k { assert init[j'] == es[j']; }
      }
      AssembleLastWins(init, j, k);
    }
  }

  /** Every key in the dict was last stored by some entry. */
  lemma {:induction false} AssembleHasLastWrite(es: seq<Entry>, k: string)
    requires k in Assemble(es)
    ensures exists j :: IsLastWrite(es, j, k)
  {
    var last := |es| - 1;
    if es[last].0 == k {
      assert IsLastWrite(es, last, k);
    } else {
      var init := es[..last];
      AssembleHasLastWrite(init, k);
      var j :| IsLastWrite(init, j, k);
      assert IsLastWrite(es, j, k);
    }
  }

  /** The dict has no more entries than stores were made. */
  lemma {:induction false} AssembleSize(es: seq<Entry>)
    ensures |Assemble(es)| <= |es|
  {
    if es != [] {
      AssembleSize(es[..|es| - 1]);
    }
  }

  /** Storing `a` then `b` is storing `a` and then overriding with the dict of `b`. */
  lemma {:induction false} AssembleAppend(a: seq<Entry>, b: seq<Entry>)
    ensures Assemble(a + b) == Assemble(a) + Assemble(b)
    decreases |b|
  {
    if b == [] {
      assert a + b == a;
    } else {
      var b' := b[..|b| - 1];
      assert (a + b)[..|a + b| - 1] == a + b';
      assert (a + b)[|a + b| - 1] == b[|b| - 1];
      AssembleAppend(a, b');
    }
  }

  /** Entries stored for a prefix of the items survive the rest of the loop
      unless a later item stores the same key; a key no later item stores
      is in the final dict only if the prefix stored it. */
  lemma AssembleKeepsEarlier(es: seq<Entry>, i: nat, k: string)
    requires i <= |es|
    requires forall j :: i <= j < |es| ==> es[j].0 != k
    ensures k in Assemble(es) <==> k in Assemble(es[..i])
    ensures k in Assemble(es) ==> Assemble(es)[k] == Assemble(es[..i])[k]
  {
    assert es == es[..i] + es[i..];
    AssembleAppend(es[..i], es[i..]);
    AssembleKeys(es[i..]);
    forall j | 0 <= j < |es[i..]| ensures es[i..][j].0 != k {
      assert es[i..][j] == es[i + j];
    }
  }

  /** The loop over `xs` computing one entry per item with `f`: the entries
      of all items, or the error of the first item that raises. */
  function Traverse<T>(xs: seq<T>, f: T -> Result<Entry>): Result<seq<Entry>>
  {
    if xs == [] then Ok([])
    else match Traverse(xs[..|xs| - 1], f)
      case Err(e) => Err(e)
      case Ok(es) =>
        match f(xs[|xs| - 1])
        case Err(e) => Err(e)
        case Ok(e) => Ok(es + [e])
  }

  /** The loop completes exactly when every item yields an entry, and then
      it yields one entry per item, in order. */
  lemma {:induction false} TraverseOk<T>(xs: seq<T>, f: T -> Result<Entry>)
    ensures Traverse(xs, f).Ok? <==> forall i :: 0 <= i < |xs| ==> f(xs[i]).Ok?
    ensures Traverse(xs, f).Ok? ==>
      |Traverse(xs, f).value| == |xs| &&
      forall i :: 0 <= i < |xs| ==> Traverse(xs, f).value[i] == f(xs[i]).value
  {
    if xs != [] {
      var init := xs[..|xs| - 1];
      TraverseOk(init, f);
      forall i | 0 <= i < |init| ensures init[i] == xs[i] { }
    }
  }

  /** A failed loop reports the error of the first item that raises. */
  lemma {:induction false} TraverseFirstError<T>(xs: seq<T>, f: T -> Result<Entry>)
    requires Traverse(xs, f).Err?
    ensures exists i :: 0 <= i < |xs| && f(xs[i]) == Err(Traverse(xs, f).error) &&
                        (forall j :: 0 <= j < i ==> f(xs[j]).Ok?)
  {
    var init := xs[..|xs| - 1];
    if Traverse(init, f).Err? {
      TraverseFirstError(init, f);
      var i :| 0 <= i < |init| && f(init[i]) == Err(Traverse(init, f).error) &&
        forall j :: 0 <= j < i ==> f(init[j]).Ok?;
      assert init[i] == xs[i];
      forall j | 0 <= j < i ensures f(xs[j]).Ok? { assert init[j] == xs[j]; }
    } else {
      TraverseOk(init, f);
      var i := |xs| - 1;
      forall j | 0 <= j < i ensures f(xs[j]).Ok? { assert init[j] == xs[j]; }
    }
  }

  /** Once the loop has raised on a prefix, the later items change nothing. */
  lemma {:induction false} TraversePrefixError<T>(xs: seq<T>, k: nat, f: T -> Result<Entry>)
    requires k <= |xs| && Traverse(xs[..k], f).Err?
    ensures Traverse(xs, f) == Traverse(xs[..k], f)
    decreases |xs| - k
  {
    if k < |xs| {
      var init := xs[..|xs| - 1];
      assert init[..k] == xs[..k];
      TraversePrefixError(init, k, f);
    } else {
      assert xs[..k] == xs;
    }
  }

  /** A loop that completes has completed every prefix with the matching
      prefix of its entries. */
  lemma TraversePrefixOk<T>(xs: seq<T>, k: nat, f: T -> Result<Entry>)
    requires k <= |xs| && Traverse(xs, f).Ok?
    ensures |Traverse(xs, f).value| == |xs|
    ensures Traverse(xs[..k], f).Ok? && Traverse(xs[..k], f).value == Traverse(xs, f).value[..k]
  {
    TraverseOk(xs, f);
    TraverseOk(xs[..k], f);
    assert forall i :: 0 <= i < k ==> xs[..k][i] == xs[i];
  }

  /** One more loop step on a prefix that has not raised. */
  lemma TraverseStep<T>(xs: seq<T>, i: nat, f: T -> Result<Entry>)
    requires i < |xs| && Traverse(xs[..i], f).Ok?
    ensures Traverse(xs[..i + 1], f) ==
      match f(xs[i])
      case Err(e) => Err(e)
      case Ok(e) => Ok(Traverse(xs[..i], f).value + [e])
  {
    assert xs[..i + 1][..i] == xs[..i];
  }

  /** The dict a completed loop builds, or the loop's error. */
  function AssembleAll(r: Result<seq<Entry>>): Result<map<string, string>>
  {
    match r
    case Err(e) => Err(e)
    case Ok(es) => Ok(Assemble(es))
  }
}
