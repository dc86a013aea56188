/** The "On this page" table of contents of the docs pages: it scans the
    headings of the docs content, keeps one entry per id, follows the section
    nearest the top of the viewport (or the link the reader clicked), and
    moves a highlight bar onto the active link. */
module DocsToc {
  import opened Wrappers
  import opened Seqs
  import opened Strings

  // ---------------------------------------------------------------- scanning

  /** A heading element of the docs content, as the scanner reads it: its
      `id`, its raw text content and its `data-level` attribute, if any. */
  datatype HeadingEl = HeadingEl(id: string, textContent: string, dataLevel: Option<string>)

  /** One entry of the table of contents. */
  datatype TocItem = TocItem(id: string, text: string, level: string)

  /** The `data-level` attribute, with a missing or empty one read as "h2". */
  function LevelOf(dataLevel: Option<string>): (level: string)
    ensures level != ""
    ensures dataLevel.Some? && dataLevel.value != "" ==> level == dataLevel.value
    ensures dataLevel.None? || dataLevel.value == "" ==> level == "h2"
  {
    match dataLevel
    case Some(l) => if l == "" then "h2" else l
    case None => "h2"
  }

  /** One heading as the scanner maps it: its id, its trimmed text and its
      level. The text is empty exactly when the heading's text is blank. */
  function ToItem(h: HeadingEl): (item: TocItem)
    ensures item.id == h.id
    ensures item.text == Trim(h.textContent) && item.level == LevelOf(h.dataLevel)
    ensures item.text == "" <==> AllWhitespace(h.textContent)
    ensures item.text != "" ==> !IsJsWhitespace(item.text[0])
  {
    TocItem(h.id, Trim(h.textContent), LevelOf(h.dataLevel))
  }

  /** A scanned heading is listed only when both its id and its trimmed text
      are non-empty. */
  predicate Listable(item: TocItem) {
    item.id != "" && item.text != ""
  }

  /** A listed entry: an id, a level, and text that starts visibly. */
  predicate IsListed(item: TocItem) {
    Listable(item) && item.level != "" && !IsJsWhitespace(item.text[0])
  }

  /** The headings of the scope, in document order, turned into entries, with
      those lacking an id or visible text dropped. */
  function ScanHeadings(hs: seq<HeadingEl>): (items: seq<TocItem>)
    ensures forall k :: 0 <= k < |items| ==> IsListed(items[k])
    ensures Subseq(items, Map(ToItem, hs))
    ensures forall i :: 0 <= i < |hs| && hs[i].id != "" && !AllWhitespace(hs[i].textContent) ==>
      ToItem(hs[i]) in items
    ensures forall x :: multiset(items)[x] == if Listable(x) then multiset(Map(ToItem, hs))[x] else 0
  {
    ScannedFacts(hs);
    Filter(Listable, Map(ToItem, hs))
  }

  lemma ScannedFacts(hs: seq<HeadingEl>)
    ensures var items := Filter(Listable, Map(ToItem, hs));
      && (forall k :: 0 <= k < |items| ==> IsListed(items[k]))
      && (forall i :: 0 <= i < |hs| && hs[i].id != "" && !AllWhitespace(hs[i].textContent) ==>
        ToItem(hs[i]) in items)
  {
    var scanned := Map(ToItem, hs);
    var items := Filter(Listable, scanned);
    assert forall i :: 0 <= i < |scanned| ==>
      scanned[i].level != "" && (scanned[i].text != "" ==> !IsJsWhitespace(scanned[i].text[0]));
    ScannedListed(scanned, items);
    ScannedKept(hs, scanned, items);
  }

  lemma ScannedListed(scanned: seq<TocItem>, items: seq<TocItem>)
    requires forall i :: 0 <= i < |scanned| ==>
      scanned[i].level != "" && (scanned[i].text != "" ==> !IsJsWhitespace(scanned[i].text[0]))
    requires forall x :: x in items ==> x in scanned && Listable(x)
    ensures forall k :: 0 <= k < |items| ==> IsListed(items[k])
  {
    forall k | 0 <= k < |items| ensures IsListed(items[k]) {
      assert items[k] in scanned;
    }
  }

  lemma ScannedKept(hs: seq<HeadingEl>, scanned: seq<TocItem>, items: seq<TocItem>)
    requires |scanned| == |hs| && forall i :: 0 <= i < |hs| ==> scanned[i] == ToItem(hs[i])
    requires forall x :: x in scanned && Listable(x) ==> x in items
    ensures forall i :: 0 <= i < |hs| && hs[i].id != "" && !AllWhitespace(hs[i].textContent) ==>
      ToItem(hs[i]) in items
  {
    forall i | 0 <= i < |hs| && hs[i].id != "" && !AllWhitespace(hs[i].textContent)
      ensures ToItem(hs[i]) in items
    {
      assert scanned[i] == ToItem(hs[i]) && Listable(scanned[i]);
    }
  }

  // ----------------------------------------------------------- de-duplication

  /** The non-empty ids among `s`: what `uniqById`'s `seen` set holds after
      it has looked at `s`. */
  function IdSet(s: seq<TocItem>): set<string> {
    if s == [] then {}
    else IdSet(s[..|s| - 1]) + (if s[|s| - 1].id != "" then {s[|s| - 1].id} else {})
  }

  lemma {:induction false} IdSetMembership(s: seq<TocItem>, x: string)
    ensures x in IdSet(s) <==> x != "" && exists i :: 0 <= i < |s| && s[i].id == x
  {
    if s != [] {
      var init := s[..|s| - 1];
      IdSetMembership(init, x);
      if exists i :: 0 <= i < |init| && init[i].id == x {
        var i :| 0 <= i < |init| && init[i].id == x;
        assert s[i].id == x;
      }
      if exists i :: 0 <= i < |s| && s[i].id == x {
        var i :| 0 <= i < |s| && s[i].id == x;
        if i < |init| { assert init[i].id == x; }
      }
    }
  }

  /** The items of `s` that are the first with their (non-empty) id, in order:
      what `uniqById` returns. */
  function FirstOccurrences(s: seq<TocItem>): (r: seq<TocItem>)
    ensures |r| <= |s|
    ensures forall k :: 0 <= k < |r| ==> r[k].id != ""
  {
    if s == [] then []
    else
      var init, last := s[..|s| - 1], s[|s| - 1];
      FirstOccurrences(init) + (if last.id != "" && last.id !in IdSet(init) then [last] else [])
  }

  predicate DistinctIds(s: seq<TocItem>) {
    forall i, j :: 0 <= i < j < |s| ==> s[i].id != s[j].id
  }

  /** No item before index `i` has the id of `s[i]`. */
  ghost predicate IsFirstOfId(s: seq<TocItem>, i: int)
    requires 0 <= i < |s|
  {
    forall j :: 0 <= j < i ==> s[j].id != s[i].id
  }

  /** Every item of `r` is the first item of `s` with its id. */
  ghost predicate KeepsFirstOfEachId(r: seq<TocItem>, s: seq<TocItem>) {
    forall k :: 0 <= k < |r| ==> IsFirstCopy(s, r[k])
  }

  /** `x` is the first item of `s` with its id. */
  ghost predicate IsFirstCopy(s: seq<TocItem>, x: TocItem) {
    exists i :: 0 <= i < |s| && s[i] == x && IsFirstOfId(s, i)
  }

  /** What `uniqById` promises: no empty id, no id twice, the input order, the
      same ids as the input, and for every id the first item that has it. */
  lemma FirstOccurrencesSpec(s: seq<TocItem>)
    ensures var r := FirstOccurrences(s);
      && (forall k :: 0 <= k < |r| ==> r[k].id != "")
      && DistinctIds(r)
      && Subseq(r, s)
      && IdSet(r) == IdSet(s)
      && KeepsFirstOfEachId(r, s)
      && InFirstIndexOrder(r, s)
  {
    FirstOccurrencesIds(s);
    FirstOccurrencesSubseq(s);
    FirstOccurrencesKeepFirst(s);
    FirstOccurrencesOrder(s);
  }

  /** The index of the first item of `s` with id `id`, or `|s|` when no item
      has it. */
  function FirstIndex(s: seq<TocItem>, id: string): (f: nat)
    ensures f <= |s|
    ensures f < |s| ==> s[f].id == id
    ensures forall j :: 0 <= j < f ==> s[j].id != id
  {
    if s == [] then 0
    else
      var init := s[..|s| - 1];
      var f := FirstIndex(init, id);
      if f < |init| then f
      else if s[|s| - 1].id == id then |init|
      else |s|
  }

  /** The ids of `r` appear in the order in which they first appear in `s`. */
  ghost predicate InFirstIndexOrder(r: seq<TocItem>, s: seq<TocItem>) {
    forall k, l :: 0 <= k < l < |r| ==> FirstIndex(s, r[k].id) < FirstIndex(s, r[l].id)
  }

  lemma {:induction false} FirstOccurrencesOrder(s: seq<TocItem>)
    ensures InFirstIndexOrder(FirstOccurrences(s), s)
  {
    if s != [] {
      var init, last := s[..|s| - 1], s[|s| - 1];
      var prev := FirstOccurrences(init);
      FirstOccurrencesOrder(init);
      FirstOccurrencesKeepFirst(init);
      forall k | 0 <= k < |prev|
        ensures FirstIndex(s, prev[k].id) == FirstIndex(init, prev[k].id) < |init|
      {
        assert IsFirstCopy(init, prev[k]);
      }
      var r := FirstOccurrences(s);
      if last.id != "" && last.id !in IdSet(init) {
        assert r == prev + [last];
        IdSetMembership(init, last.id);
        assert FirstIndex(init, last.id) == |init|;
        assert FirstIndex(s, last.id) == |init|;
        forall k, l | 0 <= k < l < |r|
          ensures FirstIndex(s, r[k].id) < FirstIndex(s, r[l].id)
        {
          assert r[k] == prev[k];
          if l < |prev| { assert r[l] == prev[l]; }
        }
      } else {
        assert r == prev;
      }
    }
  }

  lemma {:induction false} FirstOccurrencesIds(s: seq<TocItem>)
    ensures var r := FirstOccurrences(s);
      && (forall k :: 0 <= k < |r| ==> r[k].id != "")
      && DistinctIds(r)
      && IdSet(r) == IdSet(s)
  {
    if s != [] {
      var init, last := s[..|s| - 1], s[|s| - 1];
      var prev := FirstOccurrences(init);
      FirstOccurrencesIds(init);
      if last.id != "" && last.id !in IdSet(init) {
        AppendNewId(prev, last);
      } else {
        assert FirstOccurrences(s) == prev;
      }
    }
  }

  /** Appending an item with a new, non-empty id keeps the ids non-empty and
      distinct, and adds that id to the id set. */
  lemma AppendNewId(prev: seq<TocItem>, last: TocItem)
    requires forall k :: 0 <= k < |prev| ==> prev[k].id != ""
    requires DistinctIds(prev)
    requires last.id != "" && last.id !in IdSet(prev)
    ensures var r := prev + [last];
      && (forall k :: 0 <= k < |r| ==> r[k].id != "")
      && DistinctIds(r)
      && IdSet(r) == IdSet(prev) + {last.id}
  {
    var r := prev + [last];
    assert r[..|r| - 1] == prev;
    forall k | 0 <= k < |prev| ensures prev[k].id != last.id {
      IdSetMembership(prev, prev[k].id);
    }
  }

  lemma {:induction false} FirstOccurrencesSubseq(s: seq<TocItem>)
    ensures Subseq(FirstOccurrences(s), s)
  {
    if s != [] {
      var init, last := s[..|s| - 1], s[|s| - 1];
      var prev := FirstOccurrences(init);
      FirstOccurrencesSubseq(init);
      assert init + [last] == s;
      SubseqSnoc(prev, init, last);
      if last.id != "" && last.id !in IdSet(init) {
        assert FirstOccurrences(s) == prev + [last];
      } else {
        assert FirstOccurrences(s) == prev;
      }
    }
  }

  lemma {:induction false} FirstOccurrencesKeepFirst(s: seq<TocItem>)
    ensures KeepsFirstOfEachId(FirstOccurrences(s), s)
  {
    if s != [] {
      var init, last := s[..|s| - 1], s[|s| - 1];
      var prev := FirstOccurrences(init);
      FirstOccurrencesKeepFirst(init);
      assert KeepsFirstOfEachId(prev, init);
      var r := FirstOccurrences(s);
      var kept := last.id != "" && last.id !in IdSet(init);
      assert r == prev + (if kept then [last] else []);
      if kept {
        IdSetMembership(init, last.id);
      }
      forall k | 0 <= k < |r|
        ensures IsFirstCopy(s, r[k])
      {
        if k < |prev| {
          assert IsFirstCopy(init, prev[k]);
          var i :| 0 <= i < |init| && init[i] == prev[k] && IsFirstOfId(init, i);
          assert s[i] == r[k] && IsFirstOfId(s, i);
        } else {
          assert s[|s| - 1] == r[k] && IsFirstOfId(s, |s| - 1);
        }
      }
    }
  }

  /** Headings that already have distinct, non-empty ids all survive, in
      document order. */
  lemma {:induction false} FirstOccurrencesOfDistinct(s: seq<TocItem>)
    requires forall k :: 0 <= k < |s| ==> s[k].id != ""
    requires DistinctIds(s)
    ensures FirstOccurrences(s) == s
  {
    if s != [] {
      var init, last := s[..|s| - 1], s[|s| - 1];
      FirstOccurrencesOfDistinct(init);
      IdSetMembership(init, last.id);
      assert init + [last] == s;
    }
  }

  /** `uniqById`: walks the items once with a `seen` set, keeping an item when
      its id is non-empty and not yet seen. */
  method UniqById(items: seq<TocItem>) returns (unique: seq<TocItem>)
    ensures unique == FirstOccurrences(items)
    ensures forall k :: 0 <= k < |unique| ==> unique[k].id != ""
    ensures DistinctIds(unique)
    ensures Subseq(unique, items)
    ensures IdSet(unique) == IdSet(items)
  {
    var seen: set<string> := {};
    unique := [];
    var i := 0;
    while i < |items|
      invariant 0 <= i <= |items|
      invariant unique == FirstOccurrences(items[..i])
      invariant seen == IdSet(items[..i])
    {
      var item := items[i];
      assert items[..i + 1][..i] == items[..i];
      if item.id != "" && item.id !in seen {
        seen := seen + {item.id};
        unique := unique + [item];
      }
      i := i + 1;
    }
    assert items[..i] == items;
    FirstOccurrencesSpec(items);
  }

  // ------------------------------------------------------- active section

  /** `items.some(i => i.id === x)` */
  predicate HasId(items: seq<TocItem>, x: string) {
    exists i :: 0 <= i < |items| && items[i].id == x
  }

  /** The active id after a rebuild: kept if the new list still has it, else
      the first entry's id, or "" for an empty list. */
  function Reconcile(prev: string, items: seq<TocItem>): (active: string)
    ensures HasId(items, prev) ==> active == prev
    ensures !HasId(items, prev) ==> active == if items == [] then "" else items[0].id
    ensures active == "" || HasId(items, active)
    ensures (forall k :: 0 <= k < |items| ==> items[k].id != "") ==> (active == "" <==> items == [])
  {
    if HasId(items, prev) then prev
    else if items == [] then ""
    else
      assert HasId(items, items[0].id);
      items[0].id
  }

  /** Rebuilding against an unchanged document leaves the active id alone. */
  lemma ReconcileIdempotent(prev: string, items: seq<TocItem>)
    ensures Reconcile(Reconcile(prev, items), items) == Reconcile(prev, items)
  {
  }

  /** The well-formed lists a build produces: listable, distinct ids. */
  ghost predicate WellFormed(items: seq<TocItem>) {
    (forall k :: 0 <= k < |items| ==> Listable(items[k])) && DistinctIds(items)
  }

  /** The list a build produces from the headings of the scope. */
  function BuildItems(hs: seq<HeadingEl>): (items: seq<TocItem>)
    ensures WellFormed(items)
    ensures Subseq(items, ScanHeadings(hs))
    ensures IdSet(items) == IdSet(ScanHeadings(hs))
    ensures KeepsFirstOfEachId(items, ScanHeadings(hs))
    ensures InFirstIndexOrder(items, ScanHeadings(hs))
  {
    var scanned := ScanHeadings(hs);
    FirstOccurrencesSpec(scanned);
    var items := FirstOccurrences(scanned);
    assert forall k :: 0 <= k < |items| ==> Listable(items[k]) by {
      forall k | 0 <= k < |items| ensures Listable(items[k]) {
        assert IsFirstCopy(scanned, items[k]);
      }
    }
    items
  }

  /** Building twice from the same headings gives the same list. */
  lemma BuildItemsIdempotent(hs: seq<HeadingEl>)
    ensures FirstOccurrences(BuildItems(hs)) == BuildItems(hs)
  {
    FirstOccurrencesOfDistinct(BuildItems(hs));
  }

  /** Headings that all have visible text and distinct, non-empty ids are
      listed one for one, in document order. */
  lemma BuildItemsOfDistinct(hs: seq<HeadingEl>)
    requires forall k :: 0 <= k < |hs| ==> hs[k].id != "" && !AllWhitespace(hs[k].textContent)
    requires forall i, j :: 0 <= i < j < |hs| ==> hs[i].id != hs[j].id
    ensures BuildItems(hs) == Map(ToItem, hs)
  {
    var scanned := Map(ToItem, hs);
    FilterKeepsAll(Listable, scanned);
    FirstOccurrencesOfDistinct(scanned);
  }

  /** Link `k` is the one and only link rendered as active for `active`. */
  ghost predicate IsOnlyLinkFor(items: seq<TocItem>, active: string, k: int) {
    && 0 <= k < |items| && items[k].id == active
    && (set j | 0 <= j < |items| && items[j].id == active) == {k}
  }

  /** In a well-formed list, the active id names exactly one link. */
  lemma OneActiveLink(items: seq<TocItem>, active: string)
    requires WellFormed(items) && HasId(items, active)
    ensures exists k :: IsOnlyLinkFor(items, active, k)
  {
    var k :| 0 <= k < |items| && items[k].id == active;
    assert (set j | 0 <= j < |items| && items[j].id == active) == {k};
    assert IsOnlyLinkFor(items, active, k);
  }

  /** After a rebuild of a non-empty list, exactly one link is active. */
  lemma ReconcileActiveLink(prev: string, items: seq<TocItem>)
    requires WellFormed(items) && items != []
    ensures exists k :: IsOnlyLinkFor(items, Reconcile(prev, items), k)
  {
    OneActiveLink(items, Reconcile(prev, items));
  }

  // ------------------------------------------------------- visibility

  /** An IntersectionObserver entry: the observed heading's id, whether it
      intersects the viewport window, and the top of its bounding box. */
  datatype Entry = Entry(id: string, isIntersecting: bool, top: int)

  predicate IsIntersecting(e: Entry) {
    e.isIntersecting
  }

  predicate SortedByTop(s: seq<Entry>) {
    forall i, j :: 0 <= i < j < |s| ==> s[i].top <= s[j].top
  }

  /** Puts `e` before the first entry of `s` that is not above it, so `e`
      goes ahead of the entries with the same top. */
  function InsertByTop(e: Entry, s: seq<Entry>): (r: seq<Entry>)
    ensures multiset(r) == multiset(s) + multiset{e}
    ensures forall k :: 0 <= k < |r| ==> r[k] == e || r[k] in s
    ensures s == [] || e.top <= s[0].top ==> r[0] == e
    ensures s != [] && s[0].top < e.top ==> r[0] == s[0]
  {
    if s == [] || e.top <= s[0].top then [e] + s
    else
      var rest := InsertByTop(e, s[1..]);
      assert s == [s[0]] + s[1..];
      [s[0]] + rest
  }

  /** Insertion puts `e` after the entries strictly above it and before the
      first that is not, leaving the others in order. */
  lemma {:induction false} InsertByTopPlacement(e: Entry, s: seq<Entry>)
    ensures exists j :: InsertedAt(e, s, InsertByTop(e, s), j)
  {
    if s == [] || e.top <= s[0].top {
      PlacementHead(e, s);
      assert InsertedAt(e, s, InsertByTop(e, s), 0);
    } else {
      InsertByTopPlacement(e, s[1..]);
      var j :| InsertedAt(e, s[1..], InsertByTop(e, s[1..]), j);
      PlacementCons(s, e, InsertByTop(e, s[1..]), j);
      assert InsertedAt(e, s, InsertByTop(e, s), j + 1);
    }
  }

  /** An entry no lower than `e` ahead of everything else puts `e` first. */
  lemma PlacementHead(e: Entry, s: seq<Entry>)
    requires s == [] || e.top <= s[0].top
    ensures InsertedAt(e, s, [e] + s, 0)
  {
    assert s[..0] + [e] + s[0..] == [e] + s;
  }

  /** A first entry above `e` stays in front, and `e`'s place in the rest
      moves one further on. */
  lemma PlacementCons(s: seq<Entry>, e: Entry, rest: seq<Entry>, j: int)
    requires s != [] && InsertedAt(e, s[1..], rest, j) && s[0].top < e.top
    ensures InsertedAt(e, s, [s[0]] + rest, j + 1)
  {
    var tail := s[1..];
    assert s == [s[0]] + tail;
    ConsSplice(s[0], tail, e, j);
    forall k | 0 <= k < j + 1 ensures s[k].top < e.top {
      if k > 0 { assert s[k] == tail[k - 1]; }
    }
    assert j + 1 < |s| ==> s[j + 1] == tail[j];
  }

  lemma ConsSplice(x: Entry, t: seq<Entry>, e: Entry, j: int)
    requires 0 <= j <= |t|
    ensures [x] + (t[..j] + [e] + t[j..]) == ([x] + t)[..j + 1] + [e] + ([x] + t)[j + 1..]
  {
    assert ([x] + t)[..j + 1] == [x] + t[..j];
    assert ([x] + t)[j + 1..] == t[j..];
  }

  /** `r` is `s` with `e` put at index `j`: after every entry strictly above
      it and before the first entry that is not. */
  ghost predicate InsertedAt(e: Entry, s: seq<Entry>, r: seq<Entry>, j: int) {
    && 0 <= j <= |s| && r == s[..j] + [e] + s[j..]
    && (forall k :: 0 <= k < j ==> s[k].top < e.top)
    && (j < |s| ==> e.top <= s[j].top)
  }

  /** No entry of `s` is above `bound`. */
  predicate AllAtLeast(s: seq<Entry>, bound: int) {
    forall k :: 0 <= k < |s| ==> bound <= s[k].top
  }

  /** A list is sorted when its head is above its sorted tail. */
  lemma SortedCons(x: Entry, t: seq<Entry>)
    ensures SortedByTop([x] + t) <==> AllAtLeast(t, x.top) && SortedByTop(t)
  {
    var r := [x] + t;
    if AllAtLeast(t, x.top) && SortedByTop(t) {
      forall i, j | 0 <= i < j < |r| ensures r[i].top <= r[j].top {
        assert r[j] == t[j - 1];
        if i > 0 { assert r[i] == t[i - 1]; }
      }
    }
    if SortedByTop(r) {
      forall k | 0 <= k < |t| ensures x.top <= t[k].top {
        assert r[0] == x && r[k + 1] == t[k];
        assert r[0].top <= r[k + 1].top;
      }
      forall i, j | 0 <= i < j < |t| ensures t[i].top <= t[j].top {
        assert r[i + 1] == t[i] && r[j + 1] == t[j];
      }
    }
  }

  lemma InsertAtLeast(e: Entry, s: seq<Entry>, bound: int)
    requires bound <= e.top && AllAtLeast(s, bound)
    ensures AllAtLeast(InsertByTop(e, s), bound)
  {
    var r := InsertByTop(e, s);
    forall k | 0 <= k < |r| ensures bound <= r[k].top {
      if r[k] != e {
        var m :| 0 <= m < |s| && s[m] == r[k];
      }
    }
  }

  lemma {:induction false} InsertByTopSorted(e: Entry, s: seq<Entry>)
    requires SortedByTop(s)
    ensures SortedByTop(InsertByTop(e, s))
  {
    if s == [] || e.top <= s[0].top {
      assert AllAtLeast(s, e.top);
      SortedCons(e, s);
    } else {
      var tail := s[1..];
      assert s == [s[0]] + tail;
      SortedCons(s[0], tail);
      InsertByTopSorted(e, tail);
      InsertAtLeast(e, tail, s[0].top);
      SortedCons(s[0], InsertByTop(e, tail));
    }
  }

  /** `visible.sort((a, b) => a.top - b.top)`, as an insertion sort by top:
      each entry goes in front of the first later entry that is not above it. */
  function SortByTop(s: seq<Entry>): (r: seq<Entry>)
    ensures multiset(r) == multiset(s)
    ensures SortedByTop(r)
  {
    if s == [] then []
    else
      assert s == [s[0]] + s[1..];
      var rest := SortByTop(s[1..]);
      InsertByTopSorted(s[0], rest);
      InsertByTop(s[0], rest)
  }

  /** The intersecting entries, nearest the top first: every intersecting
      entry as often as it occurs, no other, ordered by top. */
  function VisibleByTop(entries: seq<Entry>): (visible: seq<Entry>)
    ensures multiset(visible) == multiset(Filter(IsIntersecting, entries))
    ensures SortedByTop(visible)
  {
    SortByTop(Filter(IsIntersecting, entries))
  }

  /** `visible[0]?.target?.id`: the observer's candidate. */
  function Candidate(entries: seq<Entry>): (c: Option<string>)
    ensures c.Some? ==> exists k :: 0 <= k < |entries| && entries[k].isIntersecting && entries[k].id == c.value
  {
    var visible := VisibleByTop(entries);
    if visible == [] then None
    else
      VisibleIn(entries, 0);
      Some(visible[0].id)
  }

  /** Entry `i` intersects, no intersecting entry is above it, and every
      intersecting entry before it is strictly below it. */
  ghost predicate IsNearest(entries: seq<Entry>, i: int) {
    && 0 <= i < |entries|
    && entries[i].isIntersecting
    && (forall j :: 0 <= j < |entries| && entries[j].isIntersecting ==> entries[i].top <= entries[j].top)
    && (forall j :: 0 <= j < i && entries[j].isIntersecting ==> entries[i].top < entries[j].top)
  }

  /** The first of the sorted intersecting entries is the earliest of those
      nearest the top. */
  lemma {:induction false} NearestFirst(entries: seq<Entry>, i: int)
    requires IsNearest(entries, i)
    ensures VisibleByTop(entries) != [] && VisibleByTop(entries)[0] == entries[i]
  {
    if i == 0 {
      NearestFirstAtHead(entries);
    } else {
      NearestInTail(entries, i);
      NearestFirst(entries[1..], i - 1);
      assert entries[1..][i - 1] == entries[i];
      NearestFirstStep(entries, i);
    }
  }

  /** A nearest entry that heads the sorted rest also heads the whole: an
      intersecting first entry is strictly below it. */
  lemma NearestFirstStep(entries: seq<Entry>, i: int)
    requires i > 0 && IsNearest(entries, i)
    requires VisibleByTop(entries[1..]) != [] && VisibleByTop(entries[1..])[0] == entries[i]
    ensures VisibleByTop(entries) != [] && VisibleByTop(entries)[0] == entries[i]
  {
    VisibleCons(entries);
  }

  /** When the first entry is the nearest, it heads the sorted list. */
  lemma NearestFirstAtHead(entries: seq<Entry>)
    requires IsNearest(entries, 0)
    ensures VisibleByTop(entries) != [] && VisibleByTop(entries)[0] == entries[0]
  {
    var e0, tail := entries[0], entries[1..];
    var sorted := VisibleByTop(tail);
    if sorted != [] {
      VisibleIn(tail, 0);
      var j :| 0 <= j < |tail| && tail[j] == sorted[0];
      assert entries[j + 1] == sorted[0];
      assert e0.top <= sorted[0].top;
    }
    VisibleCons(entries);
  }

  /** How the sorted intersecting entries grow by one entry in front. */
  lemma VisibleCons(entries: seq<Entry>)
    requires entries != []
    ensures VisibleByTop(entries) ==
      if entries[0].isIntersecting then InsertByTop(entries[0], VisibleByTop(entries[1..]))
      else VisibleByTop(entries[1..])
  {
    var e0, tail := entries[0], entries[1..];
    var vTail := Filter(IsIntersecting, tail);
    if e0.isIntersecting {
      assert Filter(IsIntersecting, entries) == [e0] + vTail;
      assert ([e0] + vTail)[1..] == vTail;
    } else {
      assert Filter(IsIntersecting, entries) == vTail;
    }
  }

  /** Every sorted intersecting entry is one of the entries. */
  lemma VisibleIn(entries: seq<Entry>, k: int)
    requires 0 <= k < |VisibleByTop(entries)|
    ensures VisibleByTop(entries)[k] in entries && VisibleByTop(entries)[k].isIntersecting
  {
    var visible := Filter(IsIntersecting, entries);
    assert VisibleByTop(entries)[k] in multiset(visible);
  }

  lemma NearestInTail(entries: seq<Entry>, i: int)
    requires IsNearest(entries, i) && i > 0
    ensures IsNearest(entries[1..], i - 1)
  {
    var tail := entries[1..];
    forall j | 0 <= j < |tail| ensures tail[j] == entries[j + 1] { }
  }

  /** Some entry is nearest as soon as one intersects. */
  lemma {:induction false} NearestExists(entries: seq<Entry>)
    requires exists k :: 0 <= k < |entries| && entries[k].isIntersecting
    ensures exists i :: IsNearest(entries, i)
  {
    var e0, tail := entries[0], entries[1..];
    if exists k :: 0 <= k < |tail| && tail[k].isIntersecting {
      NearestExists(tail);
      var i :| IsNearest(tail, i);
      if e0.isIntersecting && e0.top <= tail[i].top {
        assert IsNearest(entries, 0) by {
          forall j | 0 <= j < |entries| && entries[j].isIntersecting
            ensures e0.top <= entries[j].top
          {
            if j > 0 { assert entries[j] == tail[j - 1]; }
          }
        }
      } else {
        assert IsNearest(entries, i + 1) by {
          forall j | 0 <= j < |entries| && entries[j].isIntersecting
            ensures tail[i].top <= entries[j].top
          {
            if j > 0 { assert entries[j] == tail[j - 1]; }
          }
          forall j | 0 <= j < i + 1 && entries[j].isIntersecting
            ensures tail[i].top < entries[j].top
          {
            if j > 0 { assert entries[j] == tail[j - 1]; }
          }
        }
      }
    } else {
      assert IsNearest(entries, 0);
    }
  }

  /** The candidate is the earliest intersecting entry nearest the top, and
      there is none exactly when nothing intersects. */
  lemma CandidateSpec(entries: seq<Entry>)
    ensures Candidate(entries).None? <==> forall k :: 0 <= k < |entries| ==> !entries[k].isIntersecting
    ensures forall i :: IsNearest(entries, i) ==> Candidate(entries) == Some(entries[i].id)
  {
    var visible := Filter(IsIntersecting, entries);
    assert multiset(VisibleByTop(entries)) == multiset(visible);
    if visible != [] {
      assert visible[0] in multiset(VisibleByTop(entries));
    }
    forall i | IsNearest(entries, i) ensures Candidate(entries) == Some(entries[i].id) {
      NearestFirst(entries, i);
    }
  }

  // ------------------------------------------------------- the component

  /** A box as `getBoundingClientRect` reports it, in whole pixels. */
  datatype Rect = Rect(top: int, height: int)

  /** The highlight bar: offset from the top of the link list, height, and
      whether it has ever been measured (it stays transparent until then). */
  datatype Indicator = Indicator(top: int, height: int, ready: bool)

  /** The state of the `DocsToc` component. */
  class Toc {
    var items: seq<TocItem>
    var activeId: string
    var indicator: Indicator
    /** The rendered link of each entry, by id, with its current geometry. */
    var itemRefs: map<string, Rect>

    /** The active id is "" or one of the entries', and "" only when there
        are none. */
    ghost predicate Valid()
      reads this
    {
      && WellFormed(items)
      && (activeId == "" || HasId(items, activeId))
      && (items != [] ==> activeId != "")
    }

    /** The component renders nothing while the list is empty. */
    function Renders(): (shown: bool)
      reads this
      ensures shown <==> |items| > 0
      ensures Valid() ==> (shown <==> activeId != "")
    {
      items != []
    }

    constructor ()
      ensures Valid()
      ensures items == [] && activeId == ""
      ensures indicator == Indicator(0, 0, false) && itemRefs == map[]
    {
      items := [];
      activeId := "";
      indicator := Indicator(0, 0, false);
      itemRefs := map[];
    }

    /** `build`: rescans the headings of the `docs-content` scope (None when
        the page has no such element) and reconciles the active id. */
    method Build(scope: Option<seq<HeadingEl>>)
      modifies this`items, this`activeId, this`itemRefs
      ensures Valid()
      ensures scope.None? ==> items == [] && activeId == "" && itemRefs == old(itemRefs)
      ensures scope.Some? ==>
        && items == BuildItems(scope.value)
        && activeId == Reconcile(old(activeId), items)
        && itemRefs == map[]
    {
      if scope.None? {
        items := [];
        activeId := "";
        return;
      }
      var unique := UniqById(ScanHeadings(scope.value));
      assert unique == BuildItems(scope.value);
      assert forall k :: 0 <= k < |unique| ==> unique[k].id != "";
      itemRefs := map[];
      items := unique;
      activeId := Reconcile(activeId, unique);
    }

    /** The IntersectionObserver callback. The observer watches the headings
        of the current entries only, so every entry names one of them. */
    method Intersect(entries: seq<Entry>)
      requires Valid()
      requires forall k :: 0 <= k < |entries| ==> HasId(items, entries[k].id)
      modifies this`activeId
      ensures Valid()
      ensures (forall k :: 0 <= k < |entries| ==> !entries[k].isIntersecting) ==> activeId == old(activeId)
      ensures forall i :: IsNearest(entries, i) ==> activeId == entries[i].id
    {
      CandidateSpec(entries);
      var next := Candidate(entries);
      if next.Some? && next.value != "" {
        var visible := VisibleByTop(entries);
        assert visible[0] in multiset(Filter(IsIntersecting, entries));
        activeId := next.value;
      }
    }

    /** A link's `onClick`: the clicked entry becomes active at once. */
    method Click(id: string)
      requires Valid() && HasId(items, id)
      modifies this`activeId
      ensures Valid() && activeId == id
    {
      activeId := id;
    }

    /** A link's `ref` callback: a mounted link (Some) is recorded under its
        entry's id; an unmounting one (None) is ignored. */
    method RegisterLink(id: string, link: Option<Rect>)
      modifies this`itemRefs
      ensures link.Some? ==> itemRefs == old(itemRefs)[id := link.value]
      ensures link.None? ==> itemRefs == old(itemRefs)
    {
      if link.Some? {
        itemRefs := itemRefs[id := link.value];
      }
    }

    /** `updateIndicator`, given the top of the link container (None before it
        is mounted): places the bar on the active link, relative to the
        container, and marks it ready; otherwise changes nothing. */
    method Measure(container: Option<int>)
      modifies this`indicator
      ensures container.None? || activeId == "" || activeId !in itemRefs ==> indicator == old(indicator)
      ensures container.Some? && activeId != "" && activeId in itemRefs ==>
        indicator == Indicator(itemRefs[activeId].top - container.value, itemRefs[activeId].height, true)
      ensures old(indicator.ready) ==> indicator.ready
    {
      if container.None? || activeId == "" {
        return;
      }
      if activeId !in itemRefs {
        return;
      }
      var link := itemRefs[activeId];
      indicator := Indicator(link.top - container.value, link.height, true);
    }
  }
}
