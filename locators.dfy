/**
 * The ordered fallback chain that locates the product cards of a loaded page, and the
 * late rebuild from the name elements that can replace its result
 * (myproject/scraper.py:212-337).
 */
module Locators {
  import opened Wrappers
  import opened Page

  /**
   * One step of a de-duplicating walk: the URL the step found (the de-duplication key)
   * and the card it found for it.
   */
  datatype Candidate = Candidate(key: Option<string>, card: Option<Card>)

  /** Python truthiness of an optional string: present and non-empty. */
  predicate Truthy(key: Option<string>) {
    key.Some? && key.value != ""
  }

  /** The link-ascent step looks for the card class first, then any card-like class. */
  function FromLink(l: UrlLink): Candidate
  {
    Candidate(l.href, if l.cardAncestor.Some? then l.cardAncestor else l.looseAncestor)
  }

  /**
   * The name-first step keys on the href of the first URL link inside the enclosing
   * Product div; with no such div it skips the element.
   */
  function FromName(n: NameElement): Candidate
  {
    Candidate(if n.productAncestor.Some? then n.ancestorHref else None, n.productAncestor)
  }

  function FromLinks(ls: seq<UrlLink>): (cs: seq<Candidate>)
    ensures |cs| == |ls| && forall i :: 0 <= i < |ls| ==> cs[i] == FromLink(ls[i])
  {
    seq(|ls|, i requires 0 <= i < |ls| => FromLink(ls[i]))
  }

  function FromNames(ns: seq<NameElement>): (cs: seq<Candidate>)
    ensures |cs| == |ns| && forall i :: 0 <= i < |ns| ==> cs[i] == FromName(ns[i])
  {
    seq(|ns|, i requires 0 <= i < |ns| => FromName(ns[i]))
  }

  /** The state of a de-duplicating walk: the keys seen and the cards kept. */
  datatype Collected = Collected(seen: set<string>, cards: seq<Card>)

  /**
   * The walk over `cs`: a candidate whose key is truthy and new adds its key to the
   * seen set, and then its card, if it has one, to the list.
   */
  function Collect(cs: seq<Candidate>): Collected
  {
    if cs == [] then Collected({}, [])
    else
      var prev := Collect(cs[..|cs| - 1]);
      var c := cs[|cs| - 1];
      if Truthy(c.key) && c.key.value !in prev.seen then
        Collected(prev.seen + {c.key.value}, if c.card.Some? then prev.cards + [c.card.value] else prev.cards)
      else prev
  }

  /** The truthy keys among the candidates. */
  function TruthyKeys(cs: seq<Candidate>): set<string>
  {
    set i | 0 <= i < |cs| && Truthy(cs[i].key) :: cs[i].key.value
  }

  /** Candidate `i` is the first with its (truthy) key. */
  predicate FirstWithKey(cs: seq<Candidate>, i: nat)
    requires i < |cs|
  {
    Truthy(cs[i].key) && forall j :: 0 <= j < i ==> cs[j].key != cs[i].key
  }

  /** Reference definition: the cards of the candidates that are first with their key. */
  function KeptCards(cs: seq<Candidate>): seq<Card>
  {
    if cs == [] then []
    else
      var n := |cs| - 1;
      KeptCards(cs[..n]) + (if FirstWithKey(cs, n) && cs[n].card.Some? then [cs[n].card.value] else [])
  }

  /** The walk has seen exactly the truthy keys. */
  lemma {:induction false} CollectSeen(cs: seq<Candidate>)
    ensures Collect(cs).seen == TruthyKeys(cs)
  {
    if cs != [] {
      var n := |cs| - 1;
      CollectSeen(cs[..n]);
      assert forall i :: 0 <= i < n ==> cs[..n][i] == cs[i];
      assert TruthyKeys(cs) == TruthyKeys(cs[..n]) + (if Truthy(cs[n].key) then {cs[n].key.value} else {});
    }
  }

  /** At most one card is kept per distinct key. */
  lemma {:induction false} CollectOnePerKey(cs: seq<Candidate>)
    ensures |Collect(cs).cards| <= |Collect(cs).seen|
  {
    if cs != [] {
      CollectOnePerKey(cs[..|cs| - 1]);
    }
  }

  /** The running seen set amounts to "no earlier candidate has this key". */
  lemma {:induction false} CollectKeepsFirstOccurrences(cs: seq<Candidate>)
    ensures Collect(cs).cards == KeptCards(cs)
  {
    if cs != [] {
      var n := |cs| - 1;
      var prefix := cs[..n];
      CollectKeepsFirstOccurrences(prefix);
      CollectSeen(prefix);
      var c := cs[n];
      if Truthy(c.key) {
        if c.key.value in Collect(prefix).seen {
          var i :| 0 <= i < n && Truthy(prefix[i].key) && prefix[i].key.value == c.key.value;
          assert cs[i].key == c.key;
        } else {
          forall j | 0 <= j < n ensures cs[j].key != c.key {
            assert prefix[j] == cs[j];
          }
        }
      }
    }
  }

  /** Every kept card is the card of some candidate. */
  lemma {:induction false} CollectCardsFromCandidates(cs: seq<Candidate>, k: nat)
    requires k < |Collect(cs).cards|
    ensures exists i :: 0 <= i < |cs| && cs[i].card == Some(Collect(cs).cards[k])
  {
    var n := |cs| - 1;
    var prev := Collect(cs[..n]);
    if k < |prev.cards| && Collect(cs).cards[k] == prev.cards[k] {
      CollectCardsFromCandidates(cs[..n], k);
      var i :| 0 <= i < n && cs[..n][i].card == Some(prev.cards[k]);
      assert cs[i] == cs[..n][i];
    } else {
      assert cs[n].card == Some(Collect(cs).cards[k]);
    }
  }

  /**
   * The de-duplicating loop of the link-ascent step and of the name-first step
   * (one shape, two inputs).
   */
  method CollectUniqueCards(cs: seq<Candidate>) returns (lamps: seq<Card>)
    ensures lamps == Collect(cs).cards
    ensures |lamps| <= |TruthyKeys(cs)|
  {
    lamps := [];
    var seen: set<string> := {};
    var i := 0;
    while i < |cs|
      invariant 0 <= i <= |cs|
      invariant Collect(cs[..i]) == Collected(seen, lamps)
    {
      var c := cs[i];
      assert cs[..i + 1][..i] == cs[..i];
      if c.key.Some? && c.key.value != "" && c.key.value !in seen {
        seen := seen + {c.key.value};
        if c.card.Some? {
          lamps := lamps + [c.card.value];
        }
      }
      i := i + 1;
    }
    assert cs[..|cs|] == cs;
    CollectSeen(cs);
    CollectOnePerKey(cs);
  }

  /** The first non-empty list, or the empty list when all are empty. */
  function FirstNonEmpty(lists: seq<seq<Card>>): (r: seq<Card>)
    ensures r == [] <==> forall i :: 0 <= i < |lists| ==> lists[i] == []
    ensures r != [] ==> exists i :: 0 <= i < |lists| && r == lists[i] && forall j :: 0 <= j < i ==> lists[j] == []
  {
    if lists == [] then []
    else if lists[0] != [] then lists[0]
    else
      var r := FirstNonEmpty(lists[1..]);
      assert forall i :: 0 <= i < |lists| - 1 ==> lists[1..][i] == lists[i + 1];
      r
  }

  function LinkAscent(dom: Dom): seq<Card>
  {
    Collect(FromLinks(dom.urlLinks)).cards
  }

  function NameRebuild(dom: Dom): seq<Card>
  {
    Collect(FromNames(dom.nameElements)).cards
  }

  /** The first three strategies, in order of preference. */
  function Primary(dom: Dom): seq<Card>
  {
    FirstNonEmpty([dom.mainCards, LinkAscent(dom), dom.schemaProducts])
  }

  /** The name-first rebuild replaces at most one card by a longer list of name elements. */
  predicate RebuildsFromNames(dom: Dom) {
    |Primary(dom)| <= 1 && |dom.nameElements| > |Primary(dom)|
  }

  /**
   * The chain as a list of strategies: the first of the three primary strategies that
   * finds anything; then the name-first rebuild when that found at most one card and
   * there are more name elements; then, if still nothing, the generic card class.
   */
  function FallbackChain(dom: Dom): seq<Card>
  {
    var checked := if RebuildsFromNames(dom) then NameRebuild(dom) else Primary(dom);
    if checked == [] then dom.productCards else checked
  }

  /**
   * The Product ancestors of the name elements that have one, in document order. The
   * source skips an ancestor whose `id` it has met, but every lookup creates a new
   * element wrapper, so nothing is skipped: a product div reached from two name
   * elements is listed twice.
   */
  function ProductAncestors(ns: seq<NameElement>): seq<Card>
  {
    if ns == [] then []
    else
      var n := |ns| - 1;
      ProductAncestors(ns[..n]) + (if ns[n].productAncestor.Some? then [ns[n].productAncestor.value] else [])
  }

  /** The late rebuild fires when the chain found at most one card and there are more name elements. */
  predicate RebuildsFromAncestors(dom: Dom) {
    var found := FallbackChain(dom);
    |found| <= 1 && |dom.nameElements| > |found|
  }

  /**
   * The cards of the page: the fallback chain, replaced by the Product ancestors of all
   * name elements when the late rebuild fires.
   */
  function Located(dom: Dom): seq<Card>
  {
    if RebuildsFromAncestors(dom) then ProductAncestors(dom.nameElements) else FallbackChain(dom)
  }

  /** The late rebuild lists exactly the Product ancestors of the name elements, at most one per element. */
  lemma {:induction false} ProductAncestorsMembers(ns: seq<NameElement>)
    ensures |ProductAncestors(ns)| <= |ns|
    ensures forall c :: c in ProductAncestors(ns) <==> exists i :: 0 <= i < |ns| && ns[i].productAncestor == Some(c)
  {
    if ns != [] {
      var n := |ns| - 1;
      ProductAncestorsMembers(ns[..n]);
      forall c ensures c in ProductAncestors(ns) <==> exists i :: 0 <= i < |ns| && ns[i].productAncestor == Some(c) {
        if exists i :: 0 <= i < n && ns[..n][i].productAncestor == Some(c) {
          var i :| 0 <= i < n && ns[..n][i].productAncestor == Some(c);
          assert ns[i].productAncestor == Some(c);
        }
        if exists i :: 0 <= i < |ns| && ns[i].productAncestor == Some(c) {
          var i :| 0 <= i < |ns| && ns[i].productAncestor == Some(c);
          if i < n {
            assert ns[..n][i].productAncestor == Some(c);
          }
        }
      }
    }
  }

  /** Two name elements inside one product div give that div twice. */
  lemma ProductAncestorsKeepRepeats(m: NameElement)
    requires m.productAncestor.Some?
    ensures ProductAncestors([m, m]) == [m.productAncestor.value, m.productAncestor.value]
  {
    var c := m.productAncestor.value;
    assert [m][..0] == [];
    assert ProductAncestors([m]) == [] + [c];
    assert [m, m][..1] == [m];
    assert ProductAncestors([m, m]) == [c] + [c];
  }

  /** The loop of the late rebuild. */
  method AncestorCards(ns: seq<NameElement>) returns (lamps: seq<Card>)
    ensures lamps == ProductAncestors(ns)
  {
    lamps := [];
    for i := 0 to |ns|
      invariant lamps == ProductAncestors(ns[..i])
    {
      assert ns[..i + 1][..i] == ns[..i];
      if ns[i].productAncestor.Some? {
        lamps := lamps + [ns[i].productAncestor.value];
      }
    }
    assert ns[..|ns|] == ns;
  }

  /** The chain as the page runs it: nested tests on what was found so far. */
  method LocateCards(dom: Dom) returns (lamps: seq<Card>)
    ensures lamps == Located(dom)
  {
    PrimaryOrder(dom);
    lamps := dom.mainCards;
    if lamps == [] {
      if dom.urlLinks != [] {
        lamps := CollectUniqueCards(FromLinks(dom.urlLinks));
      }
      if lamps == [] {
        lamps := dom.schemaProducts;
      }
    }
    if |lamps| <= 1 {
      if |dom.nameElements| > |lamps| {
        lamps := CollectUniqueCards(FromNames(dom.nameElements));
      }
    }
    if lamps == [] {
      lamps := dom.productCards;
    }
    assert lamps == FallbackChain(dom);
    if |lamps| <= 1 {
      if |dom.nameElements| > |lamps| {
        lamps := AncestorCards(dom.nameElements);
      }
    }
  }

  /** A later primary strategy is consulted only when every earlier one found nothing. */
  lemma PrimaryOrder(dom: Dom)
    ensures dom.mainCards != [] ==> Primary(dom) == dom.mainCards
    ensures dom.mainCards == [] && LinkAscent(dom) != [] ==> Primary(dom) == LinkAscent(dom)
    ensures dom.mainCards == [] && LinkAscent(dom) == [] ==> Primary(dom) == dom.schemaProducts
  {
    var lists := [dom.mainCards, LinkAscent(dom), dom.schemaProducts];
    assert lists[0] == dom.mainCards && lists[1] == LinkAscent(dom) && lists[2] == dom.schemaProducts;
    if Primary(dom) != [] {
      var i :| 0 <= i < 3 && Primary(dom) == lists[i] && forall j :: 0 <= j < i ==> lists[j] == [];
    }
  }

  /** With two or more cards of the main class, the chain stops at the first strategy. */
  lemma MainClassWins(dom: Dom)
    requires |dom.mainCards| >= 2
    ensures Located(dom) == dom.mainCards
  {
    PrimaryOrder(dom);
    assert FallbackChain(dom) == dom.mainCards;
  }

  /** The link-ascent step keeps at most one card per distinct non-empty href. */
  lemma LinkAscentOnePerHref(dom: Dom)
    ensures |LinkAscent(dom)| <= |TruthyKeys(FromLinks(dom.urlLinks))|
    ensures forall h :: h in TruthyKeys(FromLinks(dom.urlLinks)) <==>
      exists i :: 0 <= i < |dom.urlLinks| && dom.urlLinks[i].href == Some(h) && h != ""
  {
    var cs := FromLinks(dom.urlLinks);
    CollectSeen(cs);
    CollectOnePerKey(cs);
    forall h | exists i :: 0 <= i < |dom.urlLinks| && dom.urlLinks[i].href == Some(h) && h != ""
      ensures h in TruthyKeys(cs)
    {
      var i :| 0 <= i < |dom.urlLinks| && dom.urlLinks[i].href == Some(h) && h != "";
      assert cs[i].key == Some(h);
    }
  }

  /**
   * The name-first step keeps at most one card per distinct non-empty href, and only
   * for name elements that lie inside a Product div.
   */
  lemma NameRebuildOnePerHref(dom: Dom)
    ensures |NameRebuild(dom)| <= |TruthyKeys(FromNames(dom.nameElements))|
    ensures forall h :: h in TruthyKeys(FromNames(dom.nameElements)) <==>
      exists i :: 0 <= i < |dom.nameElements| && dom.nameElements[i].productAncestor.Some?
        && dom.nameElements[i].ancestorHref == Some(h) && h != ""
  {
    var cs := FromNames(dom.nameElements);
    CollectSeen(cs);
    CollectOnePerKey(cs);
    forall h | (exists i :: 0 <= i < |dom.nameElements| && dom.nameElements[i].productAncestor.Some?
                 && dom.nameElements[i].ancestorHref == Some(h) && h != "")
      ensures h in TruthyKeys(cs)
    {
      var i :| 0 <= i < |dom.nameElements| && dom.nameElements[i].productAncestor.Some?
        && dom.nameElements[i].ancestorHref == Some(h) && h != "";
      assert cs[i].key == Some(h);
    }
  }
}
