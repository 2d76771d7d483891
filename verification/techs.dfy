/** Technology-set flattening: the report of the detection engine, already
    flattened by the library into root technologies plus one technology list
    per child, reduced to a duplicate-free sequence by spreading it into a
    JavaScript `Set`, which keeps the first occurrence of every value. */
module Techs {

  /** A technology identifier such as `nodejs` or `typescript`. */
  type Tech = string

  /** A child of the flattened report; only its technologies matter here. */
  datatype Node = Node(techs: seq<Tech>)

  /** The engine's report after the library has flattened and merged it:
      the root's technologies and one list per child. */
  datatype Report = Report(techs: seq<Tech>, childs: seq<Node>)

  /** The children's technologies, child after child. */
  function ChildTechs(childs: seq<Node>): seq<Tech>
    decreases |childs|
  {
    if childs == [] then [] else childs[0].techs + ChildTechs(childs[1..])
  }

  /** The root's technologies followed by the children's: the root's come
      first, and a technology occurs exactly when the root or some child
      lists it. */
  function Flatten(report: Report): (r: seq<Tech>)
    ensures report.techs <= r
    ensures forall x :: x in r <==> x in report.techs || exists c :: c in report.childs && x in c.techs
  {
    assert forall x :: x in ChildTechs(report.childs) <==> exists c :: c in report.childs && x in c.techs by {
      forall x ensures x in ChildTechs(report.childs) <==> exists c :: c in report.childs && x in c.techs {
        ChildTechsMembership(report.childs, x);
      }
    }
    report.techs + ChildTechs(report.childs)
  }

  predicate NoDup(xs: seq<Tech>)
  {
    forall i, j :: 0 <= i < j < |xs| ==> xs[i] != xs[j]
  }

  /** `xs` spread into a JavaScript `Set` and back: the values of `xs` in
      order of first occurrence. A `Set` is filled left to right, so the last
      value is appended exactly when it was not seen before. */
  function Dedup(xs: seq<Tech>): (r: seq<Tech>)
    ensures NoDup(r)
    ensures forall x :: x in r <==> x in xs
    ensures |r| <= |xs|
    decreases |xs|
  {
    if xs == [] then []
    else
      var init, last := xs[..|xs| - 1], xs[|xs| - 1];
      assert xs == init + [last];
      var d := Dedup(init);
      if last in d then d else d + [last]
  }

  /** Position of the first occurrence of `x` in `xs`. */
  function FirstIndex(xs: seq<Tech>, x: Tech): (k: nat)
    requires x in xs
    ensures k < |xs| && xs[k] == x && x !in xs[..k]
    decreases |xs|
  {
    if xs[0] == x then 0
    else
      var k := FirstIndex(xs[1..], x);
      assert xs[..k + 1] == [xs[0]] + xs[1..][..k];
      k + 1
  }

  /** The first occurrence is the only position with no earlier occurrence. */
  lemma FirstIndexUnique(xs: seq<Tech>, x: Tech, k: nat)
    requires k < |xs| && xs[k] == x && x !in xs[..k]
    ensures FirstIndex(xs, x) == k
  {
  }

  /** Appending does not move first occurrences of values already present. */
  lemma FirstIndexAppend(xs: seq<Tech>, y: Tech, x: Tech)
    requires x in xs
    ensures FirstIndex(xs + [y], x) == FirstIndex(xs, x)
  {
    var k := FirstIndex(xs, x);
    assert (xs + [y])[..k] == xs[..k];
    FirstIndexUnique(xs + [y], x, k);
  }

  /** Every value of `r` occurs in `xs`, and `r` lists them in order of their
      first occurrence in `xs`. */
  predicate FirstOccurrenceOrder(r: seq<Tech>, xs: seq<Tech>)
  {
    (forall x :: x in r ==> x in xs) &&
    forall i, j :: 0 <= i < j < |r| ==> FirstIndex(xs, r[i]) < FirstIndex(xs, r[j])
  }

  /** The output of `Dedup` lists values in order of first occurrence in the input. */
  lemma {:induction false} DedupFirstOccurrenceOrder(xs: seq<Tech>)
    ensures FirstOccurrenceOrder(Dedup(xs), xs)
    decreases |xs|
  {
    if xs != [] {
      var init, last := xs[..|xs| - 1], xs[|xs| - 1];
      assert xs == init + [last];
      var d := Dedup(init);
      DedupFirstOccurrenceOrder(init);
      var r := Dedup(xs);
      assert r == if last in d then d else d + [last];
      assert FirstOccurrenceOrder(d, init);
      forall i, j | 0 <= i < j < |r| ensures FirstIndex(xs, r[i]) < FirstIndex(xs, r[j]) {
        assert r[i] == d[i] && d[i] in init;
        FirstIndexAppend(init, last, d[i]);
        if j < |d| {
          assert r[j] == d[j] && d[j] in init;
          FirstIndexAppend(init, last, d[j]);
          assert FirstIndex(init, d[i]) < FirstIndex(init, d[j]);
        } else {
          assert r == d + [last] && r[j] == last && last !in init;
          FirstIndexUnique(xs, last, |init|);
          assert FirstIndex(init, d[i]) < |init|;
        }
      }
    }
  }

  /** A duplicate-free input comes back unchanged. */
  lemma {:induction false} DedupNoDup(xs: seq<Tech>)
    requires NoDup(xs)
    ensures Dedup(xs) == xs
    decreases |xs|
  {
    if xs != [] {
      var init, last := xs[..|xs| - 1], xs[|xs| - 1];
      assert NoDup(init);
      DedupNoDup(init);
      assert last !in init by {
        forall i | 0 <= i < |init| ensures init[i] != last {
          assert xs[i] == init[i];
        }
      }
      assert xs == init + [last];
    }
  }

  /** The values of `b` that do not occur in `a`, in order. */
  function Minus(b: seq<Tech>, a: seq<Tech>): seq<Tech>
    decreases |b|
  {
    if b == [] then []
    else
      var last := b[|b| - 1];
      Minus(b[..|b| - 1], a) + if last in a then [] else [last]
  }

  /** Deduplicating a concatenation keeps the first part's deduplication as
      a prefix, followed by the second part's values that are new. */
  lemma {:induction false} DedupAppend(a: seq<Tech>, b: seq<Tech>)
    ensures Dedup(a + b) == Dedup(a) + Dedup(Minus(b, a))
    decreases |b|
  {
    if b == [] {
      assert a + b == a;
    } else {
      var init, y := b[..|b| - 1], b[|b| - 1];
      assert b == init + [y];
      assert a + b == (a + init) + [y];
      var m := Minus(init, a);
      var d := Dedup(a + init);
      DedupAppend(a, init);
      assert d == Dedup(a) + Dedup(m);
      DedupSnoc(a + init, y);
      MinusSnoc(init, y, a);
      if y in a {
        assert y in a + init;
        assert Dedup(a + b) == d;
        assert Minus(b, a) == m;
      } else {
        assert Minus(b, a) == m + [y];
        DedupAppendNew(a, m, y);
      }
    }
  }

  /** A value new to `a` extends the second part exactly as it extends the whole. */
  lemma DedupAppendNew(a: seq<Tech>, m: seq<Tech>, y: Tech)
    requires y !in a
    ensures var d := Dedup(a) + Dedup(m);
      Dedup(a) + Dedup(m + [y]) == if y in d then d else d + [y]
  {
    DedupSnoc(m, y);
    assert y !in Dedup(a);
  }

  /** One more value is appended exactly when it is new. */
  lemma DedupSnoc(xs: seq<Tech>, y: Tech)
    ensures Dedup(xs + [y]) == if y in Dedup(xs) then Dedup(xs) else Dedup(xs) + [y]
  {
    assert (xs + [y])[..|xs|] == xs;
  }

  lemma MinusSnoc(b: seq<Tech>, y: Tech, a: seq<Tech>)
    ensures Minus(b + [y], a) == Minus(b, a) + if y in a then [] else [y]
  {
    assert (b + [y])[..|b|] == b;
  }

  /** The technologies `analyzeRepositoryStack` returns for a report: each
      technology of the root or a child once, in order of first mention. */
  function Techs(report: Report): (r: seq<Tech>)
    ensures NoDup(r) && forall x :: x in r <==> x in Flatten(report)
    ensures FirstOccurrenceOrder(r, Flatten(report))
  {
    DedupFirstOccurrenceOrder(Flatten(report));
    Dedup(Flatten(report))
  }

  /** A technology occurs among the children exactly when some child lists it. */
  lemma {:induction false} ChildTechsMembership(childs: seq<Node>, x: Tech)
    ensures x in ChildTechs(childs) <==> exists c :: c in childs && x in c.techs
    decreases |childs|
  {
    if childs != [] {
      ChildTechsMembership(childs[1..], x);
      assert forall c :: c in childs <==> c == childs[0] || c in childs[1..];
    }
  }

  /** The result holds exactly the union of the root's and every child's technologies. */
  lemma TechsMembership(report: Report, x: Tech)
    ensures x in Techs(report) <==> x in report.techs || exists c :: c in report.childs && x in c.techs
  {
    ChildTechsMembership(report.childs, x);
  }

  /** Reordering (or repeating) the children never changes membership. */
  lemma TechsReorder(r1: Report, r2: Report)
    requires forall x :: x in r1.techs <==> x in r2.techs
    requires forall c :: c in r1.childs <==> c in r2.childs
    ensures forall x :: x in Techs(r1) <==> x in Techs(r2)
  {
    forall x ensures x in Techs(r1) <==> x in Techs(r2) {
      TechsMembership(r1, x);
      TechsMembership(r2, x);
    }
  }

  /** A duplicate-free sequence holds each value once. */
  lemma {:induction false} NoDupCount(xs: seq<Tech>, x: Tech)
    requires NoDup(xs)
    ensures multiset(xs)[x] == if x in xs then 1 else 0
    decreases |xs|
  {
    if xs != [] {
      assert xs == [xs[0]] + xs[1..];
      assert NoDup(xs[1..]);
      assert xs[0] !in xs[1..] by {
        forall i | 0 <= i < |xs[1..]| ensures xs[1..][i] != xs[0] {
          assert xs[1..][i] == xs[i + 1];
        }
      }
      NoDupCount(xs[1..], x);
    }
  }

  /** Every technology found anywhere in the report occurs exactly once in
      the result, however many nodes list it; the result is no longer than
      the flattened list. */
  lemma TechsCountOnce(report: Report, x: Tech)
    ensures multiset(Techs(report))[x] == if x in Flatten(report) then 1 else 0
    ensures |Techs(report)| <= |report.techs| + |ChildTechs(report.childs)|
  {
    NoDupCount(Techs(report), x);
  }

  /** Root technologies come first, in their order; then the technologies
      only children list, in child order. */
  lemma TechsRootFirst(report: Report)
    requires NoDup(report.techs)
    ensures Techs(report) == report.techs + Dedup(Minus(ChildTechs(report.childs), report.techs))
  {
    DedupAppend(report.techs, ChildTechs(report.childs));
    DedupNoDup(report.techs);
  }

  /** Root `[nodejs]` and a child `[typescript, nodejs]` give `[nodejs, typescript]`. */
  lemma NodejsTypescript()
    ensures Techs(Report(["nodejs"], [Node(["typescript", "nodejs"])])) == ["nodejs", "typescript"]
  {
    RootThenChildOnly("nodejs", "typescript");
  }

  /** With duplicate-free root technologies, the result is the root's
      followed by the children's new technologies, once they are known. */
  lemma TechsOfParts(report: Report, added: seq<Tech>)
    requires NoDup(report.techs) && NoDup(added)
    requires Minus(ChildTechs(report.childs), report.techs) == added
    ensures Techs(report) == report.techs + added
  {
    TechsRootFirst(report);
    DedupNoDup(added);
  }

  /** Dropping `x` from `[y, x]` leaves `[y]`. */
  lemma MinusPair(x: Tech, y: Tech)
    requires x != y
    ensures Minus([y, x], [x]) == [y]
  {
    MinusSnoc([y], x, [x]);
    MinusSnoc([], y, [x]);
    assert [y, x] == [y] + [x] && [y] == [] + [y];
  }

  /** Root `[x]` and a single child `[y, x]` with `y != x` give `[x, y]`. */
  lemma RootThenChildOnly(x: Tech, y: Tech)
    requires x != y
    ensures Techs(Report([x], [Node([y, x])])) == [x, y]
  {
    var report := Report([x], [Node([y, x])]);
    assert ChildTechs(report.childs) == [y, x] by {
      assert report.childs[1..] == [];
    }
    MinusPair(x, y);
    TechsOfParts(report, [y]);
  }

  /** The spread of a `Set` filled from `xs`, value by value. */
  method SpreadIntoSet(xs: seq<Tech>) returns (r: seq<Tech>)
    ensures r == Dedup(xs)
    ensures NoDup(r) && forall x :: x in r <==> x in xs
  {
    r := [];
    var seen: set<Tech> := {};
    var i := 0;
    while i < |xs|
      invariant i <= |xs|
      invariant r == Dedup(xs[..i])
      invariant forall x :: x in seen <==> x in r
    {
      assert xs[..i + 1][..i] == xs[..i];
      if xs[i] !in seen {
        r := r + [xs[i]];
        seen := seen + {xs[i]};
      }
      i := i + 1;
    }
    assert xs[..i] == xs;
  }
}
