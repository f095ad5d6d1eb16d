/** The bullet phase of a frame, and the search for the bullet that an
    enemy runs into. */
module Bullets {
  import opened Entities

  /** One frame of motion: the bullet rises by its own speed; x is kept. */
  function Advance(b: Bullet): Bullet
  {
    b.(y := b.y - b.speed)
  }

  /** Every bullet advanced, and those that crossed the top edge (y < 0)
      dropped. */
  function MoveBullets(bs: seq<Bullet>): (r: seq<Bullet>)
    ensures |r| <= |bs|
  {
    if bs == [] then []
    else (if Advance(bs[0]).y < 0 then [] else [Advance(bs[0])]) + MoveBullets(bs[1..])
  }

  /** The bullet phase works bullet by bullet: it distributes over
      concatenation. */
  lemma {:induction false} MoveBulletsAppend(a: seq<Bullet>, b: seq<Bullet>)
    ensures MoveBullets(a + b) == MoveBullets(a) + MoveBullets(b)
  {
    if a == [] {
      assert a + b == b;
    } else {
      var ab := a + b;
      assert ab[0] == a[0] && ab[1..] == a[1..] + b;
      var head := if Advance(a[0]).y < 0 then [] else [Advance(a[0])];
      assert MoveBullets(ab) == head + MoveBullets(ab[1..]);
      assert MoveBullets(a) == head + MoveBullets(a[1..]);
      MoveBulletsAppend(a[1..], b);
      assert head + (MoveBullets(a[1..]) + MoveBullets(b)) == (head + MoveBullets(a[1..])) + MoveBullets(b);
    }
  }

  /** The bullet phase over a suffix: the first bullet of the suffix, then
      the rest. */
  lemma MoveBulletsFrom(bs: seq<Bullet>, i: nat)
    requires i < |bs|
    ensures MoveBullets(bs[i..])
            == (if Advance(bs[i]).y < 0 then [] else [Advance(bs[i])]) + MoveBullets(bs[i + 1..])
  {
  }

  /** A bullet is in the result iff it is some input bullet advanced by its
      speed (x unchanged, y reduced by exactly the speed) that did not cross
      the top edge. */
  lemma {:induction false} MoveBulletsMembers(bs: seq<Bullet>, x: Bullet)
    ensures x in MoveBullets(bs) <==> exists i :: 0 <= i < |bs| && x == Advance(bs[i]) && x.y >= 0
  {
    if bs != [] {
      MoveBulletsMembers(bs[1..], x);
      var head := if Advance(bs[0]).y < 0 then [] else [Advance(bs[0])];
      assert MoveBullets(bs) == head + MoveBullets(bs[1..]);
      if x in MoveBullets(bs) && x !in head {
        var i :| 0 <= i < |bs[1..]| && x == Advance(bs[1..][i]) && x.y >= 0;
        assert x == Advance(bs[i + 1]);
      }
      if exists i :: 0 <= i < |bs| && x == Advance(bs[i]) && x.y >= 0 {
        var i :| 0 <= i < |bs| && x == Advance(bs[i]) && x.y >= 0;
        if i > 0 {
          assert x == Advance(bs[1..][i - 1]);
        }
      }
    }
  }

  /** `f` lists, in increasing order, exactly the indices of the bullets of
      `bs` that are still on screen after they rise, and `r` holds those
      bullets, advanced, in that order. */
  predicate SurvivorsAt(bs: seq<Bullet>, r: seq<Bullet>, f: seq<nat>)
  {
    |f| == |r| && Increasing(f)
    && (forall k :: 0 <= k < |f| ==> f[k] < |bs| && r[k] == Advance(bs[f[k]]))
    && (forall i :: 0 <= i < |bs| ==> (i in f <==> Advance(bs[i]).y >= 0))
  }

  /** One more bullet at the end: its index joins the list iff it is still
      on screen after it rises. */
  lemma SurvivorsAtExtend(bs: seq<Bullet>, r: seq<Bullet>, g: seq<nat>)
    requires bs != [] && SurvivorsAt(bs[..|bs| - 1], r, g)
    ensures var n := |bs| - 1;
            var stays := Advance(bs[n]).y >= 0;
            SurvivorsAt(bs, r + (if stays then [Advance(bs[n])] else []), if stays then g + [n] else g)
  {
    var n := |bs| - 1;
    var stays := Advance(bs[n]).y >= 0;
    var r', f := r + (if stays then [Advance(bs[n])] else []), if stays then g + [n] else g;
    forall k | 0 <= k < |g| ensures f[k] == g[k] < n && r'[k] == Advance(bs[g[k]]) {
      assert bs[..n][g[k]] == bs[g[k]];
    }
    assert n !in g;
    assert Increasing(f);
    forall i | 0 <= i < n ensures (i in f <==> Advance(bs[i]).y >= 0) {
      assert bs[..n][i] == bs[i];
    }
  }

  /** The bullet phase over a list is the phase over all but its last
      bullet, followed by that bullet if it stays on screen. */
  lemma MoveBulletsSnoc(bs: seq<Bullet>)
    requires bs != []
    ensures var n := |bs| - 1;
            MoveBullets(bs) == MoveBullets(bs[..n]) + (if Advance(bs[n]).y >= 0 then [Advance(bs[n])] else [])
  {
    var n := |bs| - 1;
    var front, single := bs[..n], [bs[n]];
    assert bs == front + single;
    MoveBulletsAppend(front, single);
    assert single[1..] == [];
  }

  /** Bullet by bullet, not value by value: the result is the advanced
      bullets at exactly the indices whose new y is not above the top edge,
      one entry per such index, in index order. Equal bullets fired at the
      same pixel are therefore each kept or each dropped on their own. */
  lemma {:induction false} MoveBulletsIndexed(bs: seq<Bullet>)
    ensures exists f :: SurvivorsAt(bs, MoveBullets(bs), f)
  {
    if bs == [] {
      var none: seq<nat> := [];
      assert SurvivorsAt(bs, MoveBullets(bs), none);
    } else {
      var front := bs[..|bs| - 1];
      MoveBulletsIndexed(front);
      var g: seq<nat> :| SurvivorsAt(front, MoveBullets(front), g);
      MoveBulletsSnoc(bs);
      SurvivorsAtExtend(bs, MoveBullets(front), g);
      var stays := Advance(bs[|bs| - 1]).y >= 0;
      assert SurvivorsAt(bs, MoveBullets(bs), if stays then g + [|bs| - 1] else g);
    }
  }

  /** Survivors keep their relative order. */
  lemma MoveBulletsKeepsOrder(bs: seq<Bullet>, i: nat, j: nat)
    requires i < j < |bs|
    requires Advance(bs[i]).y >= 0 && Advance(bs[j]).y >= 0
    ensures exists k, l :: 0 <= k < l < |MoveBullets(bs)|
              && MoveBullets(bs)[k] == Advance(bs[i]) && MoveBullets(bs)[l] == Advance(bs[j])
  {
    var front, back := bs[..j], bs[j..];
    assert bs == front + back;
    MoveBulletsAppend(front, back);
    MoveBulletsMembers(front, Advance(bs[i]));
    assert front[i] == bs[i];
    var pre := MoveBullets(front);
    var k :| 0 <= k < |pre| && pre[k] == Advance(bs[i]);
    assert back[0] == bs[j];
    assert MoveBullets(back)[0] == Advance(bs[j]);
    assert MoveBullets(bs)[k] == Advance(bs[i]);
    assert MoveBullets(bs)[|pre|] == Advance(bs[j]);
  }

  /** The index of the highest-indexed bullet within range of `e`, if there
      is one: the scan runs from the end of the list towards its front and
      stops at the first bullet in range. */
  function FindBullet(bs: seq<Bullet>, e: Enemy): (r: Option<nat>)
    ensures r.Some? ==> r.value < |bs| && HitsEnemy(bs[r.value], e)
    ensures r.Some? ==> forall k :: r.value < k < |bs| ==> !HitsEnemy(bs[k], e)
    ensures r.None? <==> forall k :: 0 <= k < |bs| ==> !HitsEnemy(bs[k], e)
  {
    if bs == [] then None
    else if HitsEnemy(bs[|bs| - 1], e) then Some(|bs| - 1)
    else FindBullet(bs[..|bs| - 1], e)
  }

  /** `s` with the element at index `j` cut out (a one-element splice). */
  function RemoveAt<T>(s: seq<T>, j: nat): (r: seq<T>)
    requires j < |s|
    ensures |r| == |s| - 1
    ensures forall k :: 0 <= k < j ==> r[k] == s[k]
    ensures forall k :: j <= k < |r| ==> r[k] == s[k + 1]
    ensures multiset(r) + multiset{s[j]} == multiset(s)
  {
    assert s == s[..j] + [s[j]] + s[j + 1..];
    s[..j] + s[j + 1..]
  }
}
