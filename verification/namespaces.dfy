/** The prefix-collision rule over add-on names, and what it keeps apart. */
module Namespaces {
  import opened Jar

  /** One name plus an underscore is a prefix of the other. */
  predicate Related(a: string, b: string) { a + "_" <= b || b + "_" <= a }

  /** Every cookie prefix and every settings key of an add-on lies in its namespace. */
  predicate InNamespace(s: string, name: string) { name + "_" <= s }

  ghost predicate Unrefused(names: set<string>) {
    forall a, b :: a in names && b in names && a != b ==> !Related(a, b)
  }

  lemma PrefixOrder(p: string, q: string, s: string)
    requires p <= s && q <= s && |p| <= |q|
    ensures p <= q
  {}

  lemma RelatedIfShared(a: string, b: string, s: string)
    requires a != b && |a| <= |b| && InNamespace(s, a) && InNamespace(s, b)
    ensures a + "_" <= b
  {
    PrefixOrder(a + "_", b + "_", s);
    assert a == (a + "_")[..|a|] == (b + "_")[..|a|];
    assert |a| < |b|;
    assert (b + "_")[..|a| + 1] == b[..|a| + 1];
  }

  /** The relation is exactly the ambiguity: two different names are related if and only if some string
      lies in both their namespaces. */
  lemma RelatedIffShared(a: string, b: string)
    requires a != b
    ensures Related(a, b) <==> exists s :: InNamespace(s, a) && InNamespace(s, b)
  {
    if a + "_" <= b {
      assert InNamespace(b + "_", a) && InNamespace(b + "_", b);
    } else if b + "_" <= a {
      assert InNamespace(a + "_", a) && InNamespace(a + "_", b);
    }
    if s :| InNamespace(s, a) && InNamespace(s, b) {
      if |a| <= |b| { RelatedIfShared(a, b, s); } else { RelatedIfShared(b, a, s); }
    }
  }

  // ---- the check over every claimed name --------------------------------------------------------------

  /** The names a name collides with, in the order they are claimed in. */
  function RelatedTo(names: seq<string>, a: string): seq<string> {
    if names == [] then []
    else
      var last := names[|names| - 1];
      RelatedTo(names[..|names| - 1], a) + if Related(a, last) then [last] else []
  }

  predicate Distinct(names: seq<string>) {
    forall i, j :: 0 <= i < j < |names| ==> names[i] != names[j]
  }

  function CollidesWith(out: map<string, seq<string>>, name: string): seq<string> {
    if name in out then out[name] else []
  }

  /** How many of the names have been compared with the one at k, when pairs up to (i, j) have been. */
  function Compared(k: nat, i: nat, j: nat, n: nat): nat {
    if k < i then n else if k == i then j else if k < j then i + 1 else i
  }

  ghost predicate Progress(names: seq<string>, out: map<string, seq<string>>, i: nat, j: nat) {
    && i < j <= |names|
    && (forall k :: 0 <= k < |names| ==>
          CollidesWith(out, names[k]) == RelatedTo(names[..Compared(k, i, j, |names|)], names[k]))
    && (forall name :: name in out ==> name in names && out[name] != [])
  }

  lemma RelatedToNext(names: seq<string>, j: nat, a: string)
    requires j < |names|
    ensures RelatedTo(names[..j + 1], a) == RelatedTo(names[..j], a) + if Related(a, names[j]) then [names[j]] else []
  {
    assert names[..j + 1][..j] == names[..j];
  }

  lemma NeverOwn(a: string)
    ensures !Related(a, a)
  {
  }

  lemma PairStep(names: seq<string>, out: map<string, seq<string>>, next: map<string, seq<string>>, i: nat, j: nat)
    requires Distinct(names) && j < |names| && Progress(names, out, i, j)
    requires var a, b := names[i], names[j];
             next == if Related(a, b) then out[a := CollidesWith(out, a) + [b]][b := CollidesWith(out, b) + [a]] else out
    ensures Progress(names, next, i, j + 1)
  {
    hide Related, RelatedTo;
    var a, b := names[i], names[j];
    RelatedToNext(names, j, a);
    RelatedToNext(names, i, b);
    Symmetric(a, b);
    forall k | 0 <= k < |names|
      ensures CollidesWith(next, names[k]) == RelatedTo(names[..Compared(k, i, j + 1, |names|)], names[k])
    {
      assert k != i ==> names[k] != a;
      assert k != j ==> names[k] != b;
    }
  }

  lemma Symmetric(a: string, b: string)
    ensures Related(a, b) <==> Related(b, a)
  {
  }

  lemma RowStep(names: seq<string>, out: map<string, seq<string>>, i: nat)
    requires Progress(names, out, i, |names|) && i + 1 < |names|
    ensures Progress(names, out, i + 1, i + 2)
  {
    RelatedToNext(names, i + 1, names[i + 1]);
    NeverOwn(names[i + 1]);
  }

  /** What the check must find: each claimed name that collides with any, and with which. */
  ghost predicate Exact(names: seq<string>, out: map<string, seq<string>>) {
    && (forall k :: 0 <= k < |names| ==> CollidesWith(out, names[k]) == RelatedTo(names, names[k]))
    && (forall name :: name in out ==> name in names && out[name] != [])
  }

  /** The double loop. The names are distinct because each is the name of the directory it sits in. */
  method NameCollisions(names: seq<string>) returns (out: map<string, seq<string>>)
    requires Distinct(names)
    ensures Exact(names, out)
  {
    hide Related, RelatedTo, Progress, Exact;
    out := map[];
    if |names| == 0 {
      NothingClaimed(names);
      return;
    }
    FirstRow(names);
    for i := 0 to |names|
      invariant i < |names| ==> Progress(names, out, i, i + 1)
      invariant i == |names| ==> Exact(names, out)
    {
      var a := names[i];
      for j := i + 1 to |names|
        invariant Progress(names, out, i, j)
      {
        var b := names[j];
        ghost var before := out;
        if b + "_" <= a || a + "_" <= b {
          out := out[a := CollidesWith(out, a) + [b]];
          out := out[b := CollidesWith(out, b) + [a]];
        }
        RelatedEither(a, b);
        assert i < j && a != b;
        PairStep(names, before, out, i, j);
      }
      if i + 1 < |names| { RowStep(names, out, i); } else { Finished(names, out, i); }
    }
  }

  lemma NothingClaimed(names: seq<string>)
    requires names == []
    ensures Exact(names, map[])
  {
  }

  lemma RelatedEither(a: string, b: string)
    ensures Related(a, b) <==> b + "_" <= a || a + "_" <= b
  {
  }

  lemma FirstRow(names: seq<string>)
    requires |names| > 0
    ensures Progress(names, map[], 0, 1)
  {
    RelatedToNext(names, 0, names[0]);
    NeverOwn(names[0]);
  }

  lemma Finished(names: seq<string>, out: map<string, seq<string>>, i: nat)
    requires Progress(names, out, i, |names|) && i + 1 == |names|
    ensures Exact(names, out)
  {
    assert names[..|names|] == names;
  }

  lemma {:induction false} RelatedToExactly(names: seq<string>, a: string, b: string)
    ensures b in RelatedTo(names, a) <==> b in names && Related(a, b)
  {
    if names != [] { RelatedToExactly(names[..|names| - 1], a, b); }
  }

  /** The report is symmetric, and it is exact: a name is in it against another exactly when both are
      claimed and some string lies in both their namespaces.  So what it leaves out can share nothing. */
  lemma CollisionsAreExact(names: seq<string>, out: map<string, seq<string>>, a: string, b: string)
    requires Distinct(names) && Exact(names, out) && a in names && b in names && a != b
    ensures b in CollidesWith(out, a) <==> a in CollidesWith(out, b)
    ensures b in CollidesWith(out, a) <==> exists s :: InNamespace(s, a) && InNamespace(s, b)
    ensures a !in out && b !in out ==> !Related(a, b)
  {
    hide Related, InNamespace;
    RelatedToExactly(names, a, b);
    RelatedToExactly(names, b, a);
    Symmetric(a, b);
    RelatedIffShared(a, b);
  }

  lemma UnrefusedNames(names: seq<string>, out: map<string, seq<string>>)
    requires Distinct(names) && Exact(names, out)
    ensures Unrefused(set a | a in names && a !in out)
  {
    forall a, b | a in names && b in names && a != b && a !in out && b !in out ensures !Related(a, b) {
      CollisionsAreExact(names, out, a, b);
    }
  }

  // ---- the jars' names --------------------------------------------------------------------------------

  /** Two jar names of different add-ons coincide exactly when one add-on is the other's `_kept`. */
  lemma JarNamesCoincide(a: string, b: string, ka: bool, kb: bool)
    requires a != b
    ensures JarName(a, ka) == JarName(b, kb)
            <==> (ka && !kb && b == a + KEPT_JAR_SUFFIX) || (!ka && kb && a == b + KEPT_JAR_SUFFIX)
  {
    StripPrefix(COOKIE_JAR_PREFIX, if ka then a + KEPT_JAR_SUFFIX else a, if kb then b + KEPT_JAR_SUFFIX else b);
    JarNameTail(a, ka);
    JarNameTail(b, kb);
    if ka && kb {
      assert a == (a + KEPT_JAR_SUFFIX)[..|a|] && b == (b + KEPT_JAR_SUFFIX)[..|b|];
    }
  }

  lemma JarNameTail(a: string, kept: bool)
    ensures JarName(a, kept) == COOKIE_JAR_PREFIX + (if kept then a + KEPT_JAR_SUFFIX else a)
  {
    assert COOKIE_JAR_PREFIX + a + KEPT_JAR_SUFFIX == COOKIE_JAR_PREFIX + (a + KEPT_JAR_SUFFIX);
  }

  lemma StripPrefix(p: string, s: string, t: string)
    ensures p + s == p + t <==> s == t
  {
    assert s == (p + s)[|p|..] && t == (p + t)[|p|..];
  }

  /** With colliding names refused, jar names are pairwise distinct, the kept forms included. */
  lemma JarNamesDistinct(a: string, b: string, ka: bool, kb: bool)
    requires a != b && !Related(a, b)
    ensures JarName(a, ka) != JarName(b, kb)
  {
    JarNamesCoincide(a, b, ka, kb);
    assert a + "_" <= a + KEPT_JAR_SUFFIX;
    assert b + "_" <= b + KEPT_JAR_SUFFIX;
  }
}
