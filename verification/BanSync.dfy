/**
 What the clean-up pass of a MODE announces and installs (mode_process_bans in
 ircd/channel.c): the ban limits, and the effect of the announced changes on a peer.
 */
module BanSync {
  import opened BanList

  /** The configured limits bind local users only. */
  datatype Limits = Unlimited | Limited(maxCount: nat, maxLen: nat)

  function TextLen(list: seq<Entry>): nat {
    if list == [] then 0 else |list[0].mask.Text()| + TextLen(list[1..])
  }

  predicate Fits(lim: Limits, count: nat, len: nat) {
    lim.Unlimited? || (count <= lim.maxCount && len <= lim.maxLen)
  }

  /** The additions that get in, tried in order: count and len are those of the list so far. */
  function Accepted(lim: Limits, count: nat, len: nat, added: seq<Entry>): seq<Entry>
    decreases |added|
  {
    if added == [] then []
    else
      var len' := len + |added[0].mask.Text()|;
      if Fits(lim, count + 1, len') then [added[0]] + Accepted(lim, count + 1, len', added[1..])
      else Accepted(lim, count, len, added[1..])
  }

  function AcceptedAdds(lim: Limits, items: seq<Item>): seq<Entry> {
    var kept := Select(items, false, false);
    Accepted(lim, |kept|, TextLen(kept), Select(items, true, false))
  }

  function Installed(lim: Limits, items: seq<Item>): seq<Entry> {
    Reverse(AcceptedAdds(lim, items)) + Select(items, false, false)
  }

  function Deletions(list: seq<Entry>): (r: seq<Change>)
    ensures |r| == |list| && forall i :: 0 <= i < |r| ==> r[i] == DelBan(list[i])
  {
    seq(|list|, i requires 0 <= i < |list| => DelBan(list[i]))
  }

  function Additions(list: seq<Entry>): (r: seq<Change>)
    ensures |r| == |list| && forall i :: 0 <= i < |r| ==> r[i] == AddBan(list[i])
  {
    seq(|list|, i requires 0 <= i < |list| => AddBan(list[i]))
  }

  /** The ban changes put into the MODE line: all removals, then the accepted additions. */
  function Announced(lim: Limits, items: seq<Item>): seq<Change> {
    Deletions(Select(items, false, true)) + Additions(AcceptedAdds(lim, items))
  }

  lemma {:induction false} AcceptedAll(lim: Limits, count: nat, len: nat, added: seq<Entry>)
    ensures |Accepted(lim, count, len, added)| <= |added|
    ensures Accepted(lim, count, len, added) == added
            <==> added == [] || Fits(lim, count + |added|, len + TextLen(added))
    decreases |added|
  {
    if added != [] {
      var len' := len + |added[0].mask.Text()|;
      assert added == [added[0]] + added[1..];
      if Fits(lim, count + 1, len') {
        AcceptedAll(lim, count + 1, len', added[1..]);
        var more := Accepted(lim, count + 1, len', added[1..]);
        assert ([added[0]] + more)[1..] == more;
      } else {
        AcceptedAll(lim, count, len, added[1..]);
      }
    }
  }

  lemma {:induction false} ReverseLength<T>(s: seq<T>)
    ensures |Reverse(s)| == |s|
  {
    if s != [] {
      ReverseLength(s[1..]);
    }
  }

  lemma {:induction false} ReverseTwice<T>(s: seq<T>)
    ensures Reverse(Reverse(s)) == s
  {
    if s != [] {
      ReverseTwice(s[1..]);
      ReverseLast(Reverse(s[1..]), s[0]);
    }
  }

  /** A batch equals its changes one by one exactly when the limits refuse none of its surviving additions. */
  lemma LimitedBatchIsSequentialIff(mt: Matcher, lim: Limits, list: seq<Entry>, chs: seq<Change>)
    ensures var items := ApplyAll(mt, Clean(list), chs);
            var added, kept := Select(items, true, false), Select(items, false, false);
            Installed(lim, items) == Steps(mt, list, chs) <==>
            added == [] || Fits(lim, |kept| + |added|, TextLen(kept) + TextLen(added))
  {
    var items := ApplyAll(mt, Clean(list), chs);
    var added, kept := Select(items, true, false), Select(items, false, false);
    var accepted := AcceptedAdds(lim, items);
    BatchIsSequential(mt, list, chs);
    AcceptedAll(lim, |kept|, TextLen(kept), added);
    ReverseLength(accepted);
    ReverseLength(added);
    if Installed(lim, items) == Result(items) {
      assert |accepted| == |added|;
      assert Reverse(accepted) == Installed(lim, items)[..|added|] == Reverse(added);
      ReverseTwice(accepted);
      ReverseTwice(added);
    }
  }

  // ----- the announced changes, replayed

  lemma {:induction false} StepsConcat(mt: Matcher, list: seq<Entry>, a: seq<Change>, b: seq<Change>)
    ensures Steps(mt, list, a + b) == Steps(mt, Steps(mt, list, a), b)
  {
    if b == [] {
      assert a + b == a;
    } else {
      StepsConcat(mt, list, a, b[..|b| - 1]);
      assert (a + b)[..|a + b| - 1] == a + b[..|b| - 1];
    }
  }

  lemma {:induction false} DeletionsConcat(mt: Matcher, a: seq<Entry>, b: seq<Entry>, ds: seq<Entry>)
    ensures Steps(mt, a + b, Deletions(ds)) == Steps(mt, a, Deletions(ds)) + Steps(mt, b, Deletions(ds))
  {
    if ds != [] {
      var front := ds[..|ds| - 1];
      DeletionsConcat(mt, a, b, front);
      assert Deletions(ds)[..|ds| - 1] == Deletions(front);
      PruneConcat(mt, Steps(mt, a, Deletions(front)), Steps(mt, b, Deletions(front)), ds[|ds| - 1]);
    }
  }

  lemma {:induction false} DeletionsApart(mt: Matcher, list: seq<Entry>, ds: seq<Entry>)
    requires forall i, j :: 0 <= i < |ds| && 0 <= j < |list| ==> !Covers(mt, ds[i], list[j])
    ensures Steps(mt, list, Deletions(ds)) == list
  {
    if ds != [] {
      var front := ds[..|ds| - 1];
      DeletionsApart(mt, list, front);
      assert Deletions(ds)[..|ds| - 1] == Deletions(front);
      PruneNothing(mt, list, ds[|ds| - 1]);
    }
  }

  lemma {:induction false} PruneNothing(mt: Matcher, list: seq<Entry>, e: Entry)
    requires forall j :: 0 <= j < |list| ==> !Covers(mt, e, list[j])
    ensures Prune(mt, list, e) == list
  {
    if list != [] {
      PruneNothing(mt, list[1..], e);
    }
  }

  function Entries(items: seq<Item>): (r: seq<Entry>)
    ensures |r| == |items| && forall i :: 0 <= i < |r| ==> r[i] == items[i].entry
  {
    seq(|items|, i requires 0 <= i < |items| => items[i].entry)
  }

  lemma DeleteFirst(mt: Matcher, x: Entry, list: seq<Entry>, ds: seq<Entry>)
    requires Covers(mt, x, x) && Apart(mt, x, list)
    ensures Steps(mt, [x] + list, Deletions([x] + ds)) == Steps(mt, list, Deletions(ds))
  {
    assert Deletions([x] + ds) == [DelBan(x)] + Deletions(ds);
    StepsConcat(mt, [x] + list, [DelBan(x)], Deletions(ds));
    var whole := [x] + list;
    assert whole[1..] == list && [DelBan(x)][..0] == [];
    PruneNothing(mt, list, x);
    assert Prune(mt, whole, x) == [] + list == list;
    assert Steps(mt, whole, [DelBan(x)]) == Step(mt, Steps(mt, whole, []), DelBan(x)) == list;
  }

  lemma KeepFirst(mt: Matcher, x: Entry, list: seq<Entry>, items: seq<Item>)
    requires Apart(mt, x, list) && Entries(items) == list
    ensures var ds := Deletions(Select(items, false, true));
            Steps(mt, [x] + list, ds) == [x] + Steps(mt, list, ds)
  {
    var ds := Select(items, false, true);
    SelectMembers(items, false, true);
    forall i | 0 <= i < |ds| ensures !Covers(mt, ds[i], x) {
      assert ds[i] in ds;
      var k :| 0 <= k < |items| && items[k].entry == ds[i];
      assert list[k] == ds[i];
    }
    DeletionsApart(mt, [x], ds);
    DeletionsConcat(mt, [x], list, ds);
  }

  /** Deleting the marked bans by name removes just them, because no ban covers another. */
  lemma {:induction false} DeletionsRemoveMarked(mt: Matcher, items: seq<Item>)
    requires Incomparable(mt, Entries(items))
    requires forall i :: 0 <= i < |items| ==> !items[i].add && Covers(mt, items[i].entry, items[i].entry)
    ensures Steps(mt, Entries(items), Deletions(Select(items, false, true))) == Select(items, false, false)
  {
    if items != [] {
      var x, rest := items[0].entry, items[1..];
      assert Entries(items) == [x] + Entries(rest);
      IncomparableCons(mt, x, Entries(rest));
      DeletionsRemoveMarked(mt, rest);
      assert Select(items, false, true) == Pick(items[0], false, true) + Select(rest, false, true);
      assert Select(items, false, false) == Pick(items[0], false, false) + Select(rest, false, false);
      if items[0].del {
        DeleteFirst(mt, x, Entries(rest), Select(rest, false, true));
      } else {
        KeepFirst(mt, x, Entries(rest), rest);
        assert [] + Select(rest, false, true) == Select(rest, false, true);
      }
    }
  }

  lemma {:induction false} AdditionsStack(mt: Matcher, list: seq<Entry>, added: seq<Entry>)
    requires Incomparable(mt, Reverse(added) + list)
    ensures Steps(mt, list, Additions(added)) == Reverse(added) + list
  {
    if added != [] {
      var front, e := added[..|added| - 1], added[|added| - 1];
      assert front + [e] == added;
      ReverseLast(front, e);
      var below := Reverse(front) + list;
      assert Reverse(added) + list == [e] + below;
      IncomparableCons(mt, e, below);
      AdditionsStack(mt, list, front);
      assert Additions(added)[..|added| - 1] == Additions(front);
      PruneNothing(mt, below, e);
    }
  }

  lemma {:induction false} AcceptedStaysIncomparable(mt: Matcher, lim: Limits, count: nat, len: nat, below: seq<Entry>,
      added: seq<Entry>)
    requires Incomparable(mt, Reverse(added) + below)
    ensures Incomparable(mt, Reverse(Accepted(lim, count, len, added)) + below)
    decreases |added|
  {
    if added != [] {
      var e, more := added[0], added[1..];
      var len' := len + |e.mask.Text()|;
      assert Reverse(added) + below == Reverse(more) + ([e] + below);
      if Fits(lim, count + 1, len') {
        AcceptedStaysIncomparable(mt, lim, count + 1, len', [e] + below, more);
        var rest := Accepted(lim, count + 1, len', more);
        assert ([e] + rest)[1..] == rest;
        assert Reverse(rest) + ([e] + below) == Reverse([e] + rest) + below;
      } else {
        DropMiddle(mt, Reverse(more), e, below);
        AcceptedStaysIncomparable(mt, lim, count, len, below, more);
      }
    }
  }

  lemma DropMiddle(mt: Matcher, a: seq<Entry>, e: Entry, b: seq<Entry>)
    requires Incomparable(mt, a + ([e] + b))
    ensures Incomparable(mt, a + b)
  {
    var whole, part := a + ([e] + b), a + b;
    forall i, j | 0 <= i < |part| && 0 <= j < |part| && i != j ensures !Covers(mt, part[i], part[j]) {
      var i', j' := if i < |a| then i else i + 1, if j < |a| then j else j + 1;
      assert whole[i'] == part[i] && whole[j'] == part[j] && i' != j';
    }
  }

  /** After any batch the list is as after clean bans: the bans it had come first, without additions among them. */
  lemma {:induction false} HeapPrefix(mt: Matcher, list: seq<Entry>, chs: seq<Change>)
    ensures var items := ApplyAll(mt, Clean(list), chs);
            && |list| <= |items|
            && (forall i :: 0 <= i < |items| ==>
              (items[i].add <==> i >= |list|) && (items[i].overlapped ==> items[i].del))
            && (forall i :: 0 <= i < |list| ==> items[i].entry == list[i])
  {
    if chs != [] {
      HeapPrefix(mt, list, chs[..|chs| - 1]);
    }
  }

  lemma {:induction false} SelectAdds(items: seq<Item>, add: bool, del: bool)
    requires forall i :: 0 <= i < |items| ==> items[i].add != add
    ensures Select(items, add, del) == []
  {
    if items != [] {
      SelectAdds(items[1..], add, del);
    }
  }

  lemma SelectSplit(items: seq<Item>, n: nat, add: bool, del: bool)
    requires n <= |items| && forall i :: 0 <= i < |items| ==> (items[i].add <==> i >= n)
    ensures Select(items, add, del) == Select(if add then items[n..] else items[..n], add, del)
  {
    assert items[..n] + items[n..] == items;
    SelectConcat(items[..n], items[n..], add, del);
    SelectAdds(if add then items[..n] else items[n..], add, del);
  }

  /** The announced changes turn an equal list on a peer, which has no limits to apply, into the list installed here. */
  lemma ReplayConverges(mt: Matcher, lim: Limits, list: seq<Entry>, chs: seq<Change>)
    requires Incomparable(mt, list) && forall e :: e in list ==> Covers(mt, e, e)
    ensures var items := ApplyAll(mt, Clean(list), chs);
            Steps(mt, list, Announced(lim, items)) == Installed(lim, items)
  {
    var items := ApplyAll(mt, Clean(list), chs);
    HeapPrefix(mt, list, chs);
    var heap, accepted, kept := items[..|list|], AcceptedAdds(lim, items), Select(items, false, false);
    SelectSplit(items, |list|, false, true);
    SelectSplit(items, |list|, false, false);
    assert Entries(heap) == list;
    forall i | 0 <= i < |heap| ensures !heap[i].add && Covers(mt, heap[i].entry, heap[i].entry) {
      assert list[i] in list;
    }
    DeletionsRemoveMarked(mt, heap);
    StepsConcat(mt, list, Deletions(Select(items, false, true)), Additions(accepted));
    BatchIsSequential(mt, list, chs);
    StepsIncomparable(mt, list, chs);
    AcceptedStaysIncomparable(mt, lim, |kept|, TextLen(kept), kept, Select(items, true, false));
    AdditionsStack(mt, kept, accepted);
  }

  /** Whatever the limits refuse, no installed ban covers another. */
  lemma InstalledIncomparable(mt: Matcher, lim: Limits, list: seq<Entry>, chs: seq<Change>)
    requires Incomparable(mt, list)
    ensures Incomparable(mt, Installed(lim, ApplyAll(mt, Clean(list), chs)))
  {
    var items := ApplyAll(mt, Clean(list), chs);
    var kept := Select(items, false, false);
    BatchIsSequential(mt, list, chs);
    StepsIncomparable(mt, list, chs);
    AcceptedStaysIncomparable(mt, lim, |kept|, TextLen(kept), kept, Select(items, true, false));
  }

  // ----- the clean-up pass, node by node

  /** What the pass has kept, installed and removed so far, and the text length of the list so far. */
  datatype Walk = Walk(kept: seq<Entry>, added: seq<Entry>, removed: seq<Entry>, len: nat)

  function WalkStep(lim: Limits, w: Walk, x: Item): Walk {
    var len' := w.len + |x.entry.mask.Text()|;
    if x.add && x.del then w
    else if x.del then w.(removed := w.removed + [x.entry])
    else if !x.add then w.(kept := w.kept + [x.entry], len := len')
    else if Fits(lim, |w.kept| + |w.added| + 1, len') then w.(added := w.added + [x.entry], len := len')
    else w
  }

  function WalkTo(lim: Limits, items: seq<Item>, n: nat): Walk
    requires n <= |items|
  {
    if n == 0 then Walk([], [], [], 0) else WalkStep(lim, WalkTo(lim, items, n - 1), items[n - 1])
  }

  lemma SelectNext(items: seq<Item>, n: nat, add: bool, del: bool)
    requires n < |items|
    ensures Select(items[..n + 1], add, del) == Select(items[..n], add, del) + Pick(items[n], add, del)
    ensures Select(items[n..], add, del) == Pick(items[n], add, del) + Select(items[n + 1..], add, del)
  {
    assert items[..n + 1] == items[..n] + [items[n]];
    SelectConcat(items[..n], [items[n]], add, del);
    assert Select([items[n]], add, del) == Pick(items[n], add, del) + Select([], add, del);
    assert items[n..][1..] == items[n + 1..];
  }

  lemma {:induction false} TextLenNext(list: seq<Entry>, e: Entry)
    ensures TextLen(list + [e]) == TextLen(list) + |e.mask.Text()|
  {
    if list == [] {
      assert list + [e] == [e];
      assert TextLen([e]) == |e.mask.Text()| + TextLen([]);
    } else {
      TextLenNext(list[1..], e);
      assert (list + [e])[1..] == list[1..] + [e];
    }
  }

  lemma {:induction false} WalkHeap(lim: Limits, items: seq<Item>, n: nat)
    requires n <= |items| && forall i :: 0 <= i < n ==> !items[i].add
    ensures var w := WalkTo(lim, items, n);
            && w.added == [] && w.removed == Select(items[..n], false, true)
            && w.kept == Select(items[..n], false, false) && w.len == TextLen(w.kept)
  {
    if n > 0 {
      WalkHeap(lim, items, n - 1);
      hide Select, Pick, WalkStep, TextLen;
      SelectNext(items, n - 1, false, true);
      SelectNext(items, n - 1, false, false);
      TextLenNext(WalkTo(lim, items, n - 1).kept, items[n - 1].entry);
      KeptStep(lim, WalkTo(lim, items, n - 1), items[n - 1]);
    }
  }

  lemma KeptStep(lim: Limits, w: Walk, x: Item)
    requires !x.add
    ensures var w', kept, removed := WalkStep(lim, w, x), Pick(x, false, false), Pick(x, false, true);
            && w'.added == w.added && w'.kept == w.kept + kept && w'.removed == w.removed + removed
            && if x.del then kept == [] && w'.kept == w.kept && w'.len == w.len
               else kept == [x.entry] && w'.len == w.len + |x.entry.mask.Text()|
  {
  }

  /** All additions the pass makes: those behind it, and those it will accept of the rest. */
  function AllAdded(lim: Limits, w: Walk, more: seq<Entry>): seq<Entry> {
    w.added + Accepted(lim, |w.kept| + |w.added|, w.len, more)
  }

  lemma {:induction false} WalkAdds(lim: Limits, items: seq<Item>, h: nat, n: nat)
    requires h <= n <= |items| && forall i :: h <= i < |items| ==> items[i].add
    ensures WalkTo(lim, items, n).kept == WalkTo(lim, items, h).kept
    ensures WalkTo(lim, items, n).removed == WalkTo(lim, items, h).removed
    ensures AllAdded(lim, WalkTo(lim, items, h), Select(items[h..], true, false))
         == AllAdded(lim, WalkTo(lim, items, n), Select(items[n..], true, false))
  {
    hide AllAdded, Pick;
    if n > h {
      WalkAdds(lim, items, h, n - 1);
      SelectNext(items, n - 1, true, false);
      hide Select, WalkStep;
      AcceptedStep(lim, WalkTo(lim, items, n - 1), items[n - 1], Select(items[n..], true, false));
    }
  }

  lemma AcceptedStep(lim: Limits, w: Walk, x: Item, more: seq<Entry>)
    requires x.add
    ensures WalkStep(lim, w, x).kept == w.kept && WalkStep(lim, w, x).removed == w.removed
    ensures AllAdded(lim, w, Pick(x, true, false) + more) == AllAdded(lim, WalkStep(lim, w, x), more)
  {
    if x.del {
      assert Pick(x, true, false) + more == more;
    } else {
      assert ([x.entry] + more)[1..] == more;
    }
  }

  /** The list the pass has built so far, front to back. */
  function Built(w: Walk): seq<Entry> {
    Reverse(w.added) + w.kept
  }

  function Told(w: Walk): seq<Change> {
    Deletions(w.removed) + Additions(w.added)
  }

  function Size(w: Walk): nat {
    |w.kept| + |w.added|
  }

  /** One node: what the pass does to the list, to the announcement and to its counters. */
  lemma StepBuilds(lim: Limits, w: Walk, x: Item)
    ensures var w', t := WalkStep(lim, w, x), |x.entry.mask.Text()|;
            if x.add && (x.del || !Fits(lim, Size(w) + 1, w.len + t)) then w' == w
            else if x.add then
              Built(w') == [x.entry] + Built(w) && Told(w') == Told(w) + [AddBan(x.entry)] &&
                Size(w') == Size(w) + 1 && w'.len == w.len + t
            else if x.del then
              && Built(w') == Built(w) && Size(w') == Size(w) && w'.len == w.len && w'.added == w.added
              && (w.added == [] ==> Told(w') == Told(w) + [DelBan(x.entry)])
            else
              && Built(w') == Built(w) + [x.entry] && Told(w') == Told(w) && Size(w') == Size(w) + 1 &&
                w'.len == w.len + t
              && w'.added == w.added
  {
    if x.add {
      ReverseLast(w.added, x.entry);
      assert Additions(w.added + [x.entry]) == Additions(w.added) + [AddBan(x.entry)];
    } else {
      assert Deletions(w.removed + [x.entry]) == Deletions(w.removed) + [DelBan(x.entry)];
    }
  }

  /** Over the whole list the pass keeps, installs and announces what the batch asks for. */
  lemma WalkOutcome(lim: Limits, items: seq<Item>, h: nat)
    requires h <= |items| && forall i :: 0 <= i < |items| ==> (items[i].add <==> i >= h)
    ensures var w := WalkTo(lim, items, |items|);
            Built(w) == Installed(lim, items) && Told(w) == Announced(lim, items)
  {
    hide Select, WalkTo, Accepted, AllAdded, TextLen, Deletions, Additions, Reverse;
    var w0, w := WalkTo(lim, items, h), WalkTo(lim, items, |items|);
    WalkHeap(lim, items, h);
    WalkAdds(lim, items, h, |items|);
    SelectSplit(items, h, false, false);
    SelectSplit(items, h, false, true);
    SelectSplit(items, h, true, false);
    NoMoreToAdd(lim, w, items);
    NoneAddedYet(lim, w0, Select(items[h..], true, false));
  }

  lemma NoMoreToAdd(lim: Limits, w: Walk, items: seq<Item>)
    ensures AllAdded(lim, w, Select(items[|items|..], true, false)) == w.added
  {
    assert items[|items|..] == [];
    assert w.added + [] == w.added;
  }

  lemma NoneAddedYet(lim: Limits, w: Walk, more: seq<Entry>)
    requires w.added == []
    ensures AllAdded(lim, w, more) == Accepted(lim, |w.kept|, w.len, more)
  {
  }

  lemma {:induction false} AllKept(items: seq<Item>)
    requires Select(items, false, true) == [] && forall i :: 0 <= i < |items| ==> !items[i].add
    ensures Select(items, false, false) == Entries(items)
  {
    if items != [] {
      assert Pick(items[0], false, true) == [];
      AllKept(items[1..]);
      assert Entries(items) == [items[0].entry] + Entries(items[1..]);
    }
  }

  /** A batch that announces nothing leaves the list as it was. */
  lemma SilentMeansUnchanged(mt: Matcher, lim: Limits, list: seq<Entry>, chs: seq<Change>)
    requires Announced(lim, ApplyAll(mt, Clean(list), chs)) == []
    ensures Installed(lim, ApplyAll(mt, Clean(list), chs)) == list
  {
    var items := ApplyAll(mt, Clean(list), chs);
    HeapPrefix(mt, list, chs);
    var heap := items[..|list|];
    SelectSplit(items, |list|, false, false);
    SelectSplit(items, |list|, false, true);
    assert |Deletions(Select(items, false, true))| == 0 && |Additions(AcceptedAdds(lim, items))| == 0;
    AllKept(heap);
    assert Entries(heap) == list;
  }
}
