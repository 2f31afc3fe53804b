/** Two ways to number colliding slugs: one by one (0087) and by row_number (0086). */
module SlugNumbering {
  import opened Prelude
  import opened Slug

  /** 0087: each base is made unique against the slugs given out before it. */
  function Sequential(bases: seq<string>): (slugs: seq<string>)
    ensures |slugs| == |bases|
  {
    if bases == [] then []
    else
      var before := Sequential(bases[..|bases| - 1]);
      before + [UniqueSlug(bases[|bases| - 1], Elements(before))]
  }

  function Count(bases: seq<string>, base: string): nat {
    if bases == [] then 0
    else Count(bases[..|bases| - 1], base) + if bases[|bases| - 1] == base then 1 else 0
  }

  /** `CASE WHEN rn = 0 THEN slug ELSE slug || '-' || rn END`. */
  function NumberedSlug(base: string, rn: nat): string {
    if rn == 0 then base else Suffixed(base, rn)
  }

  /** 0086: each row is numbered by how many earlier rows share its base. */
  function Numbered(bases: seq<string>): seq<string> {
    seq(|bases|, i requires 0 <= i < |bases| => NumberedSlug(bases[i], Count(bases[..i], bases[i])))
  }

  lemma NumberedPrefix(bases: seq<string>, n: nat)
    requires n <= |bases|
    ensures Numbered(bases[..n]) == Numbered(bases)[..n]
  {
    assert forall i :: 0 <= i < n ==> bases[..n][..i] == bases[..i];
  }

  // ---------------------------------------------------------------------------
  // 0087 never collides
  // ---------------------------------------------------------------------------

  lemma UniqueSlugIsFree(base: string, taken: set<string>)
    ensures UniqueSlug(base, taken) !in taken
  {
  }

  lemma SequentialSnoc(bases: seq<string>, base: string)
    ensures Sequential(bases + [base]) == Sequential(bases) + [UniqueSlug(base, Elements(Sequential(bases)))]
  {
    assert (bases + [base])[..|bases|] == bases;
  }

  lemma {:induction false} SequentialDistinct(bases: seq<string>)
    ensures NoDuplicates(Sequential(bases))
  {
    if bases != [] {
      var before := Sequential(bases[..|bases| - 1]);
      SequentialDistinct(bases[..|bases| - 1]);
      UniqueSlugIsFree(bases[|bases| - 1], Elements(before));
      assert forall i :: 0 <= i < |before| ==> before[i] in Elements(before);
    }
  }

  // ---------------------------------------------------------------------------
  // Counting occurrences
  // ---------------------------------------------------------------------------

  lemma {:induction false} CountGrows(bases: seq<string>, i: nat, base: string)
    requires i <= |bases|
    ensures Count(bases[..i], base) <= Count(bases, base)
    ensures i < |bases| && bases[i] == base ==> Count(bases[..i], base) < Count(bases, base)
  {
    if i < |bases| {
      var init := bases[..|bases| - 1];
      CountGrows(init, i, base);
      assert init[..i] == bases[..i];
      if i == |bases| - 1 {
        assert init == bases[..i];
      }
    } else {
      assert bases[..i] == bases;
    }
  }

  /** The occurrence of `base` that has exactly k before it. */
  lemma {:induction false} Occurrence(bases: seq<string>, base: string, k: nat) returns (j: nat)
    requires k < Count(bases, base)
    ensures j < |bases| && bases[j] == base && Count(bases[..j], base) == k
  {
    var n := |bases| - 1;
    if k < Count(bases[..n], base) {
      j := Occurrence(bases[..n], base, k);
      assert bases[..n][..j] == bases[..j];
    } else {
      j := n;
    }
  }

  // ---------------------------------------------------------------------------
  // When 0086 collides
  // ---------------------------------------------------------------------------

  /** Some row's base is literally the suffixed slug that another base's repetitions reach. */
  ghost predicate SuffixClash(bases: seq<string>) {
    exists b: string, k: nat :: ClashAt(bases, b, k)
  }

  predicate ClashAt(bases: seq<string>, b: string, k: nat) {
    1 <= k < Count(bases, b) && Suffixed(b, k) in bases
  }

  /** The row_number rule gives distinct slugs exactly when no base equals `b-k` for a base b
      repeated more than k times. */
  lemma NumberedDistinctIff(bases: seq<string>)
    ensures NoDuplicates(Numbered(bases)) <==> !SuffixClash(bases)
  {
    if b: string, k: nat :| ClashAt(bases, b, k) {
      ClashDuplicates(bases, b, k);
    } else {
      forall i, j | 0 <= i < j < |bases| ensures Numbered(bases)[i] != Numbered(bases)[j] {
        NumberedDiffer(bases, i, j);
      }
    }
  }

  lemma ClashDuplicates(bases: seq<string>, b: string, k: nat)
    requires ClashAt(bases, b, k)
    ensures !NoDuplicates(Numbered(bases))
  {
    var s := Suffixed(b, k);
    var at :| 0 <= at < |bases| && bases[at] == s;
    CountGrows(bases, at, s);
    var i := Occurrence(bases, s, 0);
    var j := Occurrence(bases, b, k);
    assert |s| > |b|;
    assert i != j && Numbered(bases)[i] == Numbered(bases)[j];
  }

  lemma NumberedDiffer(bases: seq<string>, i: nat, j: nat)
    requires i < j < |bases| && !SuffixClash(bases)
    ensures Numbered(bases)[i] != Numbered(bases)[j]
  {
    var bi, bj := bases[i], bases[j];
    var ki, kj := Count(bases[..i], bi), Count(bases[..j], bj);
    CountGrows(bases, i, bi);
    CountGrows(bases, j, bj);
    CountGrows(bases[..j], i, bi);
    assert bases[..j][..i] == bases[..i];
    assert !ClashAt(bases, bi, ki) && !ClashAt(bases, bj, kj);
    if ki > 0 && kj > 0 && Suffixed(bi, ki) == Suffixed(bj, kj) {
      SuffixedInjective(bi, ki, bj, kj);
    }
  }

  /** Concretely: titles x, x and x-1. */
  lemma NumberedCanCollide()
    ensures !NoDuplicates(Numbered(["x", "x", "x-1"]))
    ensures NoDuplicates(Sequential(["x", "x", "x-1"]))
  {
    var bases := ["x", "x", "x-1"];
    assert ["x"][..0] == [] && ["x", "x"][..1] == ["x"];
    assert Count([], "x") == 0;
    assert Count(["x"], "x") == 1;
    assert Count(["x", "x"], "x") == 2;
    assert ["x", "x", "x-1"][..2] == ["x", "x"];
    assert Count(["x", "x", "x-1"], "x") == 2;
    assert Decimal(1) == "1";
    assert Suffixed("x", 1) == bases[2];
    assert ClashAt(bases, "x", 1);
    NumberedDistinctIff(bases);
    SequentialDistinct(bases);
  }

  // ---------------------------------------------------------------------------
  // When the two rules agree
  // ---------------------------------------------------------------------------

  /** The two rules give the same slugs exactly when 0086's do not collide. */
  lemma {:induction false} RulesAgreeIff(bases: seq<string>)
    requires "" !in bases
    ensures Sequential(bases) == Numbered(bases) <==> !SuffixClash(bases)
  {
    NumberedDistinctIff(bases);
    SequentialDistinct(bases);
    if NoDuplicates(Numbered(bases)) {
      DistinctRulesAgree(bases);
    }
  }

  lemma {:induction false} DistinctRulesAgree(bases: seq<string>)
    requires "" !in bases && NoDuplicates(Numbered(bases))
    ensures Sequential(bases) == Numbered(bases)
  {
    if bases != [] {
      var n := |bases| - 1;
      var init, b := bases[..n], bases[n];
      NumberedPrefix(bases, n);
      DistinctRulesAgree(init);
      LastAgrees(bases);
    }
  }

  lemma LastAgrees(bases: seq<string>)
    requires bases != [] && bases[|bases| - 1] != "" && NoDuplicates(Numbered(bases))
    ensures var n := |bases| - 1;
      UniqueSlug(bases[n], Elements(Numbered(bases[..n]))) == Numbered(bases)[n]
  {
    var n := |bases| - 1;
    var init, b := bases[..n], bases[n];
    var c := Count(init, b);
    var taken := Elements(Numbered(init));
    NumberedPrefix(bases, n);
    assert forall i :: 0 <= i < n ==> Numbered(bases)[i] != Numbered(bases)[n];
    assert NumberedSlug(b, c) !in taken;
    forall k: nat | k < c ensures NumberedSlug(b, k) in taken {
      EarlierTaken(init, b, k);
    }
    if c > 0 {
      assert NumberedSlug(b, 0) in taken;
      forall m | 1 <= m < c ensures Suffixed(b, m) in taken {
        assert NumberedSlug(b, m) in taken;
      }
      LeastFreeIsUnique(b, taken, c);
    }
  }

  lemma EarlierTaken(bases: seq<string>, b: string, k: nat)
    requires k < Count(bases, b)
    ensures NumberedSlug(b, k) in Elements(Numbered(bases))
  {
    var j := Occurrence(bases, b, k);
    assert Numbered(bases)[j] == NumberedSlug(b, k);
  }
}
