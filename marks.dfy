/** What toggling marks does to the set of marked cells, and why the win test
    (marked set equals mined set) does not depend on the order of the marks. */
module Marks {
  import opened Grid

  /** The marked set after toggling the mark on p. */
  function Toggled(marked: set<Pos>, p: Pos): (r: set<Pos>)
    ensures p in r <==> p !in marked
    ensures forall q :: q != p ==> (q in r <==> q in marked)
  {
    if p in marked then marked - {p} else marked + {p}
  }

  /** The marked set after toggling the cells of toggles, first to last. */
  function MarksAfter(marked: set<Pos>, toggles: seq<Pos>): set<Pos>
    decreases |toggles|
  {
    if toggles == [] then marked
    else MarksAfter(Toggled(marked, toggles[0]), toggles[1..])
  }

  /** A cell ends up marked exactly when it started marked and was toggled an
      even number of times, or started unmarked and was toggled an odd number. */
  lemma {:induction false} MarksAfterParity(marked: set<Pos>, toggles: seq<Pos>, p: Pos)
    ensures p in MarksAfter(marked, toggles) <==> (p in marked) != (multiset(toggles)[p] % 2 == 1)
    decreases |toggles|
  {
    if toggles != [] {
      MarksAfterParity(Toggled(marked, toggles[0]), toggles[1..], p);
      assert toggles == [toggles[0]] + toggles[1..];
      assert multiset(toggles) == multiset{toggles[0]} + multiset(toggles[1..]);
    }
  }

  /** Toggling the same cells in another order gives the same marked set. */
  lemma MarksAfterOrderIndependent(marked: set<Pos>, t1: seq<Pos>, t2: seq<Pos>)
    requires multiset(t1) == multiset(t2)
    ensures MarksAfter(marked, t1) == MarksAfter(marked, t2)
  {
    forall p ensures p in MarksAfter(marked, t1) <==> p in MarksAfter(marked, t2) {
      MarksAfterParity(marked, t1, p);
      MarksAfterParity(marked, t2, p);
    }
  }

  lemma {:induction false} OccurrencesOfDistinct(s: seq<Pos>, p: Pos)
    requires NoDuplicates(s)
    ensures multiset(s)[p] == if p in s then 1 else 0
  {
    if s != [] {
      var rest := s[1..];
      NoDuplicatesTail(s);
      OccurrencesOfDistinct(rest, p);
      assert s == [s[0]] + rest;
      assert multiset(s) == multiset{s[0]} + multiset(rest);
      assert s[0] !in rest;
    }
  }

  /** Starting from no marks, marking each mine once, in any order, makes the
      marked set equal the mined set; toggling one of them again breaks it. */
  lemma MarkingEveryMineWins(mines: set<Pos>, toggles: seq<Pos>, m: Pos)
    requires NoDuplicates(toggles) && Elements(toggles) == mines
    ensures MarksAfter({}, toggles) == mines
    ensures m in mines ==> MarksAfter({}, toggles + [m]) != mines
  {
    forall p ensures p in MarksAfter({}, toggles) <==> p in mines {
      MarksAfterParity({}, toggles, p);
      OccurrencesOfDistinct(toggles, p);
    }
    if m in mines {
      MarksAfterParity({}, toggles + [m], m);
      OccurrencesOfDistinct(toggles, m);
      assert multiset(toggles + [m]) == multiset(toggles) + multiset{m};
    }
  }
}
