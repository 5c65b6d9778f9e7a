/** The sidebar's active-section tracker: heading ranks, the lowest-ranked heading
    in view, and the observer callback that moves the `active` marker between
    navigation entries. The DOM is plain data: the headings are their ids in
    document order, the sidebar is a map from a link's target id to its active
    flag (a missing id means there is no such link), and an observer entry is an
    id with a flag saying whether its intersection ratio is above zero. */
module ActiveSection {
  import opened Wrappers

  /** Starting value of the running minimum in the argmin scan. */
  const Sentinel: int := 99999

  predicate Distinct(s: seq<string>) {
    forall i, j :: 0 <= i < j < |s| ==> s[i] != s[j]
  }

  // ---------------------------------------------------------------------------
  // Heading ranks

  /** The rank table built from the headings in document order: every heading's
      id is a key, and its rank is the position of its LAST occurrence (a later
      heading with the same id overwrites the earlier entry). */
  function HeaderOrder(headings: seq<string>): (order: map<string, int>)
    ensures order.Keys == set i | 0 <= i < |headings| :: headings[i]
    ensures forall id :: id in order ==> 0 <= order[id] < |headings| && headings[order[id]] == id
    ensures forall j :: 0 <= j < |headings| ==> headings[j] in order && j <= order[headings[j]]
  {
    if headings == [] then map[]
    else
      var last := |headings| - 1;
      HeaderOrder(headings[..last])[headings[last] := last]
  }

  /** The loop that fills the rank table with a running count. */
  method GetHeaderOrder(headings: seq<string>) returns (ret: map<string, int>)
    ensures ret == HeaderOrder(headings)
  {
    ret := map[];
    var count := 0;
    for i := 0 to |headings|
      invariant count == i
      invariant ret == HeaderOrder(headings[..i])
    {
      assert headings[..i + 1][..i] == headings[..i];
      ret := ret[headings[i] := count];
      count := count + 1;
    }
    assert headings[..|headings|] == headings;
  }

  /** With unique ids, the heading at position i has rank i and the ranks are
      exactly 0 .. N-1. */
  lemma {:induction false} UniqueIdsRankedInOrder(headings: seq<string>)
    requires Distinct(headings)
    ensures forall i :: 0 <= i < |headings| ==> HeaderOrder(headings)[headings[i]] == i
    ensures forall r :: r in HeaderOrder(headings).Values <==> 0 <= r < |headings|
  {
    var order := HeaderOrder(headings);
    forall i | 0 <= i < |headings|
      ensures order[headings[i]] == i
    {
      var r := order[headings[i]];
      assert headings[r] == headings[i];
    }
    forall r | r in order.Values
      ensures 0 <= r < |headings|
    {
      var id :| id in order && order[id] == r;
    }
    forall r | 0 <= r < |headings|
      ensures r in order.Values
    {
      assert order[headings[r]] == r;
    }
  }

  /** No two ids share a rank: the rank names the position that owns it. */
  predicate Injective(order: map<string, int>) {
    forall a, b :: a in order && b in order && order[a] == order[b] ==> a == b
  }

  lemma HeaderOrderInjective(headings: seq<string>)
    ensures Injective(HeaderOrder(headings))
  {
  }

  // ---------------------------------------------------------------------------
  // The lowest heading in view

  /** State of the argmin loop: the running minimum and the id that reached it. */
  datatype Scan = Scan(min: int, id: string)

  /** An id the scan can pick: it has a rank, and the rank is under the sentinel. */
  predicate Ranked(order: map<string, int>, id: string) {
    id in order && order[id] < Sentinel
  }

  /** The loop state after visiting `inView` in order with a strict `<`. */
  function ScanLowest(order: map<string, int>, inView: seq<string>): (r: Scan)
    ensures r.min <= Sentinel
    ensures r.min == Sentinel ==> r.id == ""
    ensures r.min < Sentinel ==> r.id in inView && r.id in order && order[r.id] == r.min
    ensures forall j :: 0 <= j < |inView| && inView[j] in order ==> r.min <= order[inView[j]]
  {
    if inView == [] then Scan(Sentinel, "")
    else
      var prev := ScanLowest(order, inView[..|inView| - 1]);
      var header := inView[|inView| - 1];
      if header in order && order[header] < prev.min then Scan(order[header], header) else prev
  }

  /** The id to highlight: "" when nothing ranked is in view. */
  function LowestHeader(order: map<string, int>, inView: seq<string>): (r: string)
    ensures r == "" || (r in inView && Ranked(order, r))
  {
    ScanLowest(order, inView).id
  }

  /** Position i holds the first in-view id whose rank is the smallest. */
  predicate FirstMinimumAt(order: map<string, int>, inView: seq<string>, i: int) {
    0 <= i < |inView| && Ranked(order, inView[i]) &&
    (forall j :: 0 <= j < |inView| && inView[j] in order ==> order[inView[i]] <= order[inView[j]]) &&
    (forall j :: 0 <= j < i && inView[j] in order ==> order[inView[i]] < order[inView[j]])
  }

  /** When no in-view id is ranked, the scan returns "". */
  lemma {:induction false} LowestHeaderWhenNoneRanked(order: map<string, int>, inView: seq<string>)
    requires forall j :: 0 <= j < |inView| ==> !Ranked(order, inView[j])
    ensures ScanLowest(order, inView) == Scan(Sentinel, "")
    ensures LowestHeader(order, inView) == ""
  {
  }

  /** When some in-view id is ranked, the scan returns the first in-view id that
      reaches the minimum rank. */
  lemma {:induction false} LowestHeaderIsFirstMinimum(order: map<string, int>, inView: seq<string>) returns (i: int)
    requires exists j :: 0 <= j < |inView| && Ranked(order, inView[j])
    ensures FirstMinimumAt(order, inView, i) && LowestHeader(order, inView) == inView[i]
  {
    var last := |inView| - 1;
    var init := inView[..last];
    var prev := ScanLowest(order, init);
    assert forall j :: 0 <= j < last ==> inView[j] == init[j];
    if exists j :: 0 <= j < last && Ranked(order, init[j]) {
      var k := LowestHeaderIsFirstMinimum(order, init);
      if Ranked(order, inView[last]) && order[inView[last]] < prev.min {
        i := last;
      } else {
        i := k;
      }
    } else {
      LowestHeaderWhenNoneRanked(order, init);
      i := last;
    }
  }

  /** An empty view selects nothing. */
  lemma NothingInView(order: map<string, int>)
    ensures LowestHeader(order, []) == ""
  {
  }

  /** At most one position can be the first minimum. */
  lemma FirstMinimumUnique(order: map<string, int>, inView: seq<string>, i: int, k: int)
    requires FirstMinimumAt(order, inView, i) && FirstMinimumAt(order, inView, k)
    ensures i == k
  {
  }

  /** With injective ranks, which id is selected depends only on the SET of ids in
      view, not on the order the keys are listed in. (The contract of ScanLowest
      suffices: each result is in the other view, so the two minima are equal.) */
  lemma LowestHeaderDependsOnlyOnSet(order: map<string, int>, s: seq<string>, t: seq<string>)
    requires Injective(order)
    requires forall x :: x in s <==> x in t
    ensures LowestHeader(order, s) == LowestHeader(order, t)
  {
  }

  /** The argmin loop over the in-view ids. */
  method GetLowestHeader(order: map<string, int>, inView: seq<string>) returns (ret: string)
    ensures ret == LowestHeader(order, inView)
  {
    ret := "";
    var min := Sentinel;
    for i := 0 to |inView|
      invariant Scan(min, ret) == ScanLowest(order, inView[..i])
    {
      assert inView[..i + 1][..i] == inView[..i];
      var header := inView[i];
      if header in order && order[header] < min {
        min := order[header];
        ret := header;
      }
    }
    assert inView[..|inView|] == inView;
  }

  // ---------------------------------------------------------------------------
  // The in-view set

  /** One observer entry: the target's id and whether its intersection ratio is
      above zero. */
  datatype Entry = Entry(id: string, visible: bool)

  /** `s` without `x`, the other ids keeping their order. */
  function Remove(s: seq<string>, x: string): (r: seq<string>)
    ensures forall y :: y in r <==> y in s && y != x
    ensures Distinct(s) ==> Distinct(r)
    ensures x !in s ==> r == s
  {
    if s == [] then []
    else if s[0] == x then Remove(s[1..], x)
    else
      var rest := Remove(s[1..], x);
      assert Distinct(s) ==> s[0] !in s[1..];
      [s[0]] + rest
  }

  /** The in-view keys after one entry: a visible id is added at the end unless
      already present, an invisible one is deleted. */
  function Visit(inView: seq<string>, e: Entry): (r: seq<string>)
    ensures forall x :: x in r <==> if x == e.id then e.visible else x in inView
    ensures Distinct(inView) ==> Distinct(r)
  {
    if e.visible then (if e.id in inView then inView else inView + [e.id])
    else Remove(inView, e.id)
  }

  /** Delivering the same entry twice changes nothing the second time. */
  lemma VisitIdempotent(inView: seq<string>, e: Entry)
    ensures Visit(Visit(inView, e), e) == Visit(inView, e)
  {
  }

  /** The in-view keys after a sequence of entries, one at a time. */
  function ApplyAll(inView: seq<string>, entries: seq<Entry>): seq<string> {
    if entries == [] then inView
    else Visit(ApplyAll(inView, entries[..|entries| - 1]), entries[|entries| - 1])
  }

  /** What the latest entry for `id` said, if there is one. */
  function LastEvent(entries: seq<Entry>, id: string): Option<bool> {
    if entries == [] then None
    else if entries[|entries| - 1].id == id then Some(entries[|entries| - 1].visible)
    else LastEvent(entries[..|entries| - 1], id)
  }

  /** An id is in view after a sequence of entries exactly when its most recent
      entry said visible, or it had no entry and was in view before. */
  lemma {:induction false} InViewFollowsLastEvent(inView: seq<string>, entries: seq<Entry>, id: string)
    ensures id in ApplyAll(inView, entries) <==>
              match LastEvent(entries, id)
              case None => id in inView
              case Some(visible) => visible
  {
    if entries != [] {
      InViewFollowsLastEvent(inView, entries[..|entries| - 1], id);
    }
  }

  lemma {:induction false} ApplyAllDistinct(inView: seq<string>, entries: seq<Entry>)
    requires Distinct(inView)
    ensures Distinct(ApplyAll(inView, entries))
  {
    if entries != [] {
      ApplyAllDistinct(inView, entries[..|entries| - 1]);
    }
  }

  // ---------------------------------------------------------------------------
  // Navigation links

  /** Moving the marker: the link to `from`, if any, loses `active`, then the
      link to `to`, if any, gains it. */
  function MoveActive(nav: map<string, bool>, from: string, to: string): (r: map<string, bool>)
    ensures r.Keys == nav.Keys
    ensures to in r ==> r[to]
    ensures from in r && from != to ==> !r[from]
    ensures forall k :: k in r && k != from && k != to ==> r[k] == nav[k]
  {
    var cleared := if from in nav then nav[from := false] else nav;
    if to in cleared then cleared[to := true] else cleared
  }

  /** Only the link to `id` (if any) may be marked active. */
  predicate ActiveAtMost(nav: map<string, bool>, id: string) {
    forall k :: k in nav && nav[k] ==> k == id
  }

  /** The link to `id` (if any) is the one and only active link. */
  predicate ActiveExactly(nav: map<string, bool>, id: string) {
    forall k :: k in nav ==> (nav[k] <==> k == id)
  }

  lemma MoveActiveNarrows(nav: map<string, bool>, from: string, to: string)
    requires ActiveAtMost(nav, from)
    ensures ActiveExactly(MoveActive(nav, from, to), to)
  {
  }

  // ---------------------------------------------------------------------------
  // The callback's transition, as a value

  /** What one callback invocation reads and writes: the in-view keys, the
      current id and the sidebar's active flags. */
  datatype TrackerState = TrackerState(inView: seq<string>, current: string, nav: map<string, bool>)

  /** One observer entry: update the in-view keys, recompute the lowest heading,
      and move the marker only when that result differs from the current id. */
  function Step(order: map<string, int>, st: TrackerState, e: Entry): TrackerState {
    var inView := Visit(st.inView, e);
    var lowest := LowestHeader(order, inView);
    if lowest == st.current then TrackerState(inView, st.current, st.nav)
    else TrackerState(inView, lowest, MoveActive(st.nav, st.current, lowest))
  }

  /** The entries of a batch processed one after another. */
  function Run(order: map<string, int>, st: TrackerState, entries: seq<Entry>): TrackerState {
    if entries == [] then st
    else Step(order, Run(order, st, entries[..|entries| - 1]), entries[|entries| - 1])
  }

  /** After a non-empty batch the in-view keys are those the entries leave and
      the current id is their lowest heading; the set of links never changes. */
  lemma {:induction false} RunTracksLowest(order: map<string, int>, st: TrackerState, entries: seq<Entry>)
    ensures Run(order, st, entries).inView == ApplyAll(st.inView, entries)
    ensures Run(order, st, entries).nav.Keys == st.nav.Keys
    ensures entries != [] ==>
              Run(order, st, entries).current == LowestHeader(order, ApplyAll(st.inView, entries))
  {
    if entries != [] {
      RunTracksLowest(order, st, entries[..|entries| - 1]);
    }
  }

  /** A link keeps its flag through a batch unless it was the current id before
      the batch or became the current id after one of the batch's entries. */
  lemma {:induction false} RunKeepsOtherLinks(order: map<string, int>, st: TrackerState,
                                              entries: seq<Entry>, k: string)
    requires k in st.nav && k != st.current
    requires forall i :: 0 < i <= |entries| ==> Run(order, st, entries[..i]).current != k
    ensures k in Run(order, st, entries).nav
    ensures Run(order, st, entries).nav[k] == st.nav[k]
  {
    if entries != [] {
      var init := entries[..|entries| - 1];
      forall i | 0 < i <= |init|
        ensures Run(order, st, init[..i]).current != k
      {
        assert init[..i] == entries[..i];
      }
      RunKeepsOtherLinks(order, st, init, k);
      RunTracksLowest(order, st, init);
      var prev := Run(order, st, init);
      assert entries[..|entries|] == entries;
      assert Run(order, st, entries).current != k;
      if |init| > 0 {
        assert prev.current != k;
      } else {
        assert prev == st;
      }
    }
  }

  // ---------------------------------------------------------------------------
  // The observer callback's state

  /** The state kept by the page-load handler: the rank table (fixed), the
      in-view keys in insertion order, the current id, and the sidebar links. */
  class Tracker {
    const headings: seq<string>
    const order: map<string, int>
    var inView: seq<string>
    var current: string
    var nav: map<string, bool>

    ghost function State(): TrackerState
      reads this
    {
      TrackerState(inView, current, nav)
    }

    ghost predicate Valid()
      reads this
    {
      order == HeaderOrder(headings) &&
      Distinct(inView) &&
      current == LowestHeader(order, inView)
    }

    constructor (headings: seq<string>, nav: map<string, bool>)
      ensures Valid()
      ensures this.headings == headings && this.nav == nav
      ensures inView == [] && current == ""
    {
      this.headings := headings;
      var order := GetHeaderOrder(headings);
      this.order := order;
      inView := [];
      current := "";
      this.nav := nav;
    }

    /** One observer entry: update the in-view keys, recompute the lowest
        heading, and move the marker only if that changed. */
    method OnEntry(e: Entry)
      requires Valid()
      modifies this
      ensures Valid()
      ensures State() == Step(order, old(State()), e)
      ensures inView == Visit(old(inView), e)
      ensures nav == if current == old(current) then old(nav) else MoveActive(old(nav), old(current), current)
      ensures inView == old(inView) ==> current == old(current) && nav == old(nav)
      ensures ActiveAtMost(old(nav), old(current)) ==> ActiveAtMost(nav, current)
      ensures current != old(current) && ActiveAtMost(old(nav), old(current)) ==> ActiveExactly(nav, current)
      ensures ActiveExactly(old(nav), old(current)) ==> ActiveExactly(nav, current)
    {
      inView := Visit(inView, e);
      var lowest := GetLowestHeader(order, inView);
      if current != lowest {
        if current in nav {
          nav := nav[current := false];
        }
        if lowest in nav {
          nav := nav[lowest := true];
        }
        assert nav == MoveActive(old(nav), old(current), lowest);
        if ActiveAtMost(old(nav), old(current)) {
          MoveActiveNarrows(old(nav), old(current), lowest);
        }
        current := lowest;
      }
    }

    /** One callback invocation: every entry is processed in turn, with a
        recomputation after each. */
    method OnEntries(entries: seq<Entry>)
      requires Valid()
      modifies this
      ensures Valid()
      ensures State() == Run(order, old(State()), entries)
      ensures inView == ApplyAll(old(inView), entries)
      ensures nav.Keys == old(nav).Keys
      ensures ActiveAtMost(old(nav), old(current)) ==> ActiveAtMost(nav, current)
      ensures ActiveExactly(old(nav), old(current)) ==> ActiveExactly(nav, current)
    {
      for i := 0 to |entries|
        invariant Valid()
        invariant State() == Run(order, old(State()), entries[..i])
        invariant inView == ApplyAll(old(inView), entries[..i])
        invariant nav.Keys == old(nav).Keys
        invariant ActiveAtMost(old(nav), old(current)) ==> ActiveAtMost(nav, current)
        invariant ActiveExactly(old(nav), old(current)) ==> ActiveExactly(nav, current)
      {
        assert entries[..i + 1][..i] == entries[..i];
        OnEntry(entries[i]);
      }
      assert entries[..|entries|] == entries;
    }
  }

  /** The rank table of the scenario below. */
  lemma ScenarioRanks()
    ensures HeaderOrder(["h1", "h2", "h3"]) == map["h1" := 0, "h2" := 1, "h3" := 2]
  {
    var headings := ["h1", "h2", "h3"];
    assert headings[..2][..1] == ["h1"] && headings[..2] == ["h1", "h2"];
  }

  /** The in-view keys the scenario below goes through. */
  lemma ScenarioViews()
    ensures ApplyAll([], [Entry("h2", true), Entry("h3", true)]) == ["h2", "h3"]
    ensures ApplyAll(["h2", "h3"], [Entry("h2", false)]) == ["h3"]
    ensures ApplyAll(["h3"], [Entry("h3", false)]) == []
  {
    var entries := [Entry("h2", true), Entry("h3", true)];
    assert entries[..1] == [Entry("h2", true)] && entries[..1][..0] == [];
    assert [Entry("h2", false)][..0] == [] && [Entry("h3", false)][..0] == [];
  }

  /** The argmin values the scenario below goes through. */
  lemma ScenarioValues()
    ensures LowestHeader(map["h1" := 0, "h2" := 1, "h3" := 2], ["h2", "h3"]) == "h2"
    ensures LowestHeader(map["h1" := 0, "h2" := 1, "h3" := 2], ["h3"]) == "h3"
  {
    assert ["h2", "h3"][..1] == ["h2"];
  }

  /** Three headings h1, h2, h3: h2 and h3 come into view together, then h2
      leaves, then h3 leaves. The current id goes h2, h3, "" and no link is left
      active. */
  method ScenarioScrollPastHeadings() returns (seen: seq<string>, activeAtEnd: set<string>)
    ensures seen == ["h2", "h3", ""]
    ensures activeAtEnd == {}
  {
    ScenarioRanks();
    ScenarioViews();
    ScenarioValues();
    var t := new Tracker(["h1", "h2", "h3"], map["h1" := false, "h2" := false, "h3" := false]);
    assert t.order == map["h1" := 0, "h2" := 1, "h3" := 2];
    assert ActiveAtMost(t.nav, "") && "" !in t.nav;
    t.OnEntries([Entry("h2", true), Entry("h3", true)]);
    assert t.inView == ["h2", "h3"];
    var first := t.current;
    assert first == "h2";
    t.OnEntries([Entry("h2", false)]);
    assert t.inView == ["h3"];
    var second := t.current;
    assert second == "h3";
    t.OnEntries([Entry("h3", false)]);
    assert t.inView == [];
    var third := t.current;
    assert third == "";
    seen := [first, second, third];
    assert ActiveAtMost(t.nav, "") && "" !in t.nav;
    activeAtEnd := set k | k in t.nav && t.nav[k];
  }
}
