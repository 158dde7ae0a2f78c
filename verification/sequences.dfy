/** Facts about Kotlin lists used as sets: `toSet()` and "no element repeated". */
module Sequences {

  /** No element occurs twice. */
  ghost predicate Distinct<T>(s: seq<T>) {
    forall i, j :: 0 <= i < j < |s| ==> s[i] != s[j]
  }

  /** The set of elements of a list: Kotlin's `toSet()`. */
  function Elements<T>(s: seq<T>): set<T>
  {
    set x | x in s
  }

  lemma {:induction false} ElementsOfSnoc<T>(s: seq<T>, x: T)
    ensures Elements(s + [x]) == Elements(s) + {x}
  {
  }

  /** `toSet()` never has more elements than the list. */
  lemma {:induction false} ElementsBound<T>(s: seq<T>)
    ensures |Elements(s)| <= |s|
  {
    if s != [] {
      var p := s[..|s| - 1];
      assert s == p + [s[|s| - 1]];
      ElementsOfSnoc(p, s[|s| - 1]);
      ElementsBound(p);
    }
  }

  /** `toSet().size == size` holds exactly when no element is repeated. */
  lemma {:induction false} DistinctIffElementsSize<T>(s: seq<T>)
    ensures |Elements(s)| == |s| <==> Distinct(s)
  {
    if s != [] {
      var n := |s| - 1;
      var p, x := s[..n], s[n];
      assert s == p + [x];
      ElementsOfSnoc(p, x);
      DistinctIffElementsSize(p);
      ElementsBound(p);
      if x in p {
        var k :| 0 <= k < n && p[k] == x;
        assert s[k] == s[n];
        assert Elements(p) + {x} == Elements(p);
      } else {
        assert Distinct(s) <==> Distinct(p) by {
          if Distinct(p) {
            forall i, j | 0 <= i < j < |s| ensures s[i] != s[j] {
              if j == n {
                assert s[i] == p[i];
              } else {
                assert s[i] == p[i] && s[j] == p[j];
              }
            }
          }
          if Distinct(s) {
            forall i, j | 0 <= i < j < |p| ensures p[i] != p[j] {
              assert p[i] == s[i] && p[j] == s[j];
            }
          }
        }
      }
    }
  }
}
