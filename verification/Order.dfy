/** The iteration order of std::map<std::string, T> and std::set<std::string>. */
module Order {

  /** a comes strictly before b, as std::string compares them. */
  predicate Below(a: string, b: string) {
    if b == "" then false
    else if a == "" then true
    else a[0] < b[0] || (a[0] == b[0] && Below(a[1..], b[1..]))
  }

  /** At the first place where they differ the lesser character, or the end, comes first. */
  lemma {:induction false} BelowExactly(a: string, b: string)
    ensures Below(a, b)
            <==> exists k :: 0 <= k <= |a| && k < |b| && a[..k] == b[..k] && (k == |a| || a[k] < b[k])
  {
    if b == "" {
    } else if a == "" {
      assert a[..0] == b[..0];
    } else if a[0] != b[0] {
      assert a[..0] == b[..0];
      assert forall k :: 0 < k <= |a| && k < |b| ==> a[..k][0] == a[0] && b[..k][0] == b[0];
    } else {
      BelowExactly(a[1..], b[1..]);
      if Below(a, b) {
        var k :| 0 <= k <= |a[1..]| && k < |b[1..]| && a[1..][..k] == b[1..][..k]
                 && (k == |a[1..]| || a[1..][k] < b[1..][k]);
        assert a[..k + 1] == [a[0]] + a[1..][..k] && b[..k + 1] == [b[0]] + b[1..][..k];
      }
      if k: nat :| k <= |a| && k < |b| && a[..k] == b[..k] && (k == |a| || a[k] < b[k]) {
        assert k > 0;
        assert a[1..][..k - 1] == a[..k][1..] && b[1..][..k - 1] == b[..k][1..];
        assert k - 1 == |a[1..]| || a[1..][k - 1] < b[1..][k - 1];
      }
    }
  }

  lemma {:induction false} Transitive(a: string, b: string, c: string)
    requires Below(a, b) && Below(b, c)
    ensures Below(a, c)
  {
    if a != "" && a[0] == b[0] == c[0] {
      Transitive(a[1..], b[1..], c[1..]);
    }
  }

  lemma {:induction false} Irreflexive(a: string)
    ensures !Below(a, a)
  {
    if a != "" {
      Irreflexive(a[1..]);
    }
  }

  lemma {:induction false} Connected(a: string, b: string)
    ensures a == b || Below(a, b) || Below(b, a)
  {
    if a != "" && b != "" && a[0] == b[0] {
      Connected(a[1..], b[1..]);
      assert a == [a[0]] + a[1..] && b == [b[0]] + b[1..];
    }
  }

  predicate IsLeast(x: string, s: set<string>) {
    x in s && forall y :: y in s ==> !Below(y, x)
  }

  lemma {:induction false} HasLeast(s: set<string>)
    requires s != {}
    ensures exists x :: IsLeast(x, s)
  {
    var x :| x in s;
    var rest := s - {x};
    if rest == {} {
      Irreflexive(x);
      assert forall z :: z in s ==> z == x || z in rest;
      assert IsLeast(x, s);
    } else {
      HasLeast(rest);
      var y :| IsLeast(y, rest);
      Connected(x, y);
      Irreflexive(x);
      if Below(x, y) {
        forall z | z in s ensures !Below(z, x) {
          if z != x && Below(z, x) { Transitive(z, x, y); }
        }
        assert IsLeast(x, s);
      } else {
        assert IsLeast(y, s);
      }
    }
  }

  lemma LeastUnique(x: string, y: string, s: set<string>)
    requires IsLeast(x, s) && IsLeast(y, s)
    ensures x == y
  {
    Connected(x, y);
  }

  ghost function Least(s: set<string>): (x: string)
    requires s != {}
    ensures IsLeast(x, s)
  {
    HasLeast(s);
    var x :| IsLeast(x, s);
    x
  }

  /** The elements of s in increasing order. */
  ghost function Sorted(s: set<string>): (r: seq<string>)
    ensures forall x :: x in r <==> x in s
    ensures |r| == |s|
    decreases |s|
  {
    if s == {} then [] else [Least(s)] + Sorted(s - {Least(s)})
  }

  /** Taking the least element first is what Sorted does, whoever takes it. */
  lemma {:induction false} SortedTake(s: set<string>, x: string)
    requires IsLeast(x, s)
    ensures Sorted(s) == [x] + Sorted(s - {x})
  {
    LeastUnique(x, Least(s), s);
  }

  lemma {:induction false} SortedIncreasing(s: set<string>, i: nat, j: nat)
    requires i < j < |s|
    ensures Below(Sorted(s)[i], Sorted(s)[j])
    decreases |s|
  {
    var x := Least(s);
    var rest := Sorted(s - {x});
    assert Sorted(s) == [x] + rest;
    if i == 0 {
      assert rest[j - 1] in rest;
      LeastBelow(s, rest[j - 1]);
    } else {
      SortedIncreasing(s - {x}, i - 1, j - 1);
    }
  }

  lemma LeastBelow(s: set<string>, y: string)
    requires y in s && y != Least(s)
    ensures Below(Least(s), y)
  {
    Connected(Least(s), y);
  }
}
