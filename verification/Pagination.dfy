/** Bounded page readers: the acquirer's `paginate_envelope_v2` and the guard's `_pages` and
    `_envelope_pages`. A reader is a function of the responses it got, page by page, so the same
    definitions serve an unchanging server and one that changes between pages. */
module Pagination {
  import opened Outcomes

  const PAGE_SIZE := 100
  const ACQUIRER_PAGES := 50
  const GUARD_PAGES := 20

  /** A JSON object of a listing: its identity, the run attempt and compared fields some listings
      carry, and everything else. */
  datatype Item = Item(id: int, attempt: int, fields: string, body: string)

  /** A list member: an object with an integer id, an object without one, or no object at all. */
  datatype Entry = Object(item: Item) | Nameless(body: string) | NoObject

  /** A response body: not the expected shape, or a list with the completeness count beside it. */
  datatype Response = NotListing | Listing(total: int, entries: seq<Entry>)

  function Objects(entries: seq<Entry>): seq<Item> {
    if entries == [] then []
    else if entries[0].Object? then [entries[0].item] + Objects(entries[1..])
    else Objects(entries[1..])
  }

  predicate WellFormed(entries: seq<Entry>) {
    forall e :: e in entries ==> e.Object?
  }

  predicate PositiveIds(items: seq<Item>) {
    forall i :: i in items ==> i.id > 0
  }

  predicate DistinctIds(items: seq<Item>) {
    forall i, j :: 0 <= i < j < |items| ==> items[i].id != items[j].id
  }

  // ---- The readers -----------------------------------------------------------------------------

  /** `[item for item in batch if isinstance(item, dict)]`: an object without an id stays. */
  function Dicts(entries: seq<Entry>): seq<Entry> {
    Filter(entries, (e: Entry) => !e.NoObject?)
  }

  /** `paginate_envelope_v2` from `page` on. */
  function Acquire(get: nat -> Response, page: nat, items: seq<Entry>): Outcome<seq<Entry>>
    decreases ACQUIRER_PAGES + 1 - page
  {
    if page > ACQUIRER_PAGES then Refused
    else
      match get(page)
      case NotListing => Refused
      case Listing(_, entries) =>
        var more := items + Dicts(entries);
        if |entries| < PAGE_SIZE then Resolved(more) else Acquire(get, page + 1, more)
  }

  /** `_pages` from `page` on. */
  function Pages(get: nat -> Response, page: nat, items: seq<Item>): Outcome<seq<Item>>
    decreases GUARD_PAGES + 1 - page
  {
    if page > GUARD_PAGES then Refused
    else
      match get(page)
      case NotListing => Refused
      case Listing(_, entries) =>
        if !WellFormed(entries) then Refused
        else
          var more := items + Objects(entries);
          if |entries| < PAGE_SIZE then (if DistinctIds(more) then Resolved(more) else Refused)
          else Pages(get, page + 1, more)
  }

  /** `_envelope_pages` from `page` on; `expected` is the count the first page declared. */
  function EnvelopePages(get: nat -> Response, page: nat, items: seq<Item>, expected: Option<int>): Outcome<seq<Item>>
    decreases GUARD_PAGES + 1 - page
  {
    if page > GUARD_PAGES then Refused
    else
      match get(page)
      case NotListing => Refused
      case Listing(total, entries) =>
        if !WellFormed(entries) || !PositiveIds(Objects(entries)) || total < 0 then Refused
        else if expected.Some? && total != expected.value then Refused
        else
          var more := items + Objects(entries);
          if |entries| < PAGE_SIZE then
            (if |more| == total && DistinctIds(more) then Resolved(more) else Refused)
          else EnvelopePages(get, page + 1, more, Some(total))
  }

  // ---- An unchanging server ----------------------------------------------------------------------

  function Least(a: nat, b: nat): nat { if a <= b then a else b }

  function Wrap(items: seq<Item>): (entries: seq<Entry>)
    ensures |entries| == |items|
    ensures forall i :: 0 <= i < |items| ==> entries[i] == Object(items[i])
  {
    seq(|items|, i requires 0 <= i < |items| => Object(items[i]))
  }

  /** Page `page` (from 1) of a listing. */
  function Slice<T>(xs: seq<T>, page: nat): seq<T>
    requires page >= 1
  {
    xs[Least(PAGE_SIZE * (page - 1), |xs|)..Least(PAGE_SIZE * page, |xs|)]
  }

  /** A server holding the entries `xs` and declaring `total`. */
  function ServeEntries(xs: seq<Entry>, total: int): nat -> Response {
    page => if page >= 1 then Listing(total, Slice(xs, page)) else NotListing
  }

  /** A server holding `xs`, all of them objects with ids. */
  function Serve(xs: seq<Item>, total: int): nat -> Response {
    page => if page >= 1 then Listing(total, Wrap(Slice(xs, page))) else NotListing
  }

  lemma {:induction false} ObjectsOfWrap(items: seq<Item>)
    ensures Objects(Wrap(items)) == items && WellFormed(Wrap(items))
  {
    if items != [] {
      ObjectsOfWrap(items[1..]);
      assert Wrap(items)[1..] == Wrap(items[1..]);
    }
  }

  lemma {:induction false} WrapOfObjects(entries: seq<Entry>)
    requires WellFormed(entries)
    ensures Wrap(Objects(entries)) == entries
  {
    if entries != [] {
      assert entries[0] in entries;
      WrapOfObjects(entries[1..]);
      assert Objects(entries) == [entries[0].item] + Objects(entries[1..]);
      assert Wrap(Objects(entries))[1..] == Wrap(Objects(entries[1..]));
    }
  }

  lemma SliceStep<T>(xs: seq<T>, page: nat)
    requires page >= 1 && PAGE_SIZE * (page - 1) <= |xs|
    ensures xs[..PAGE_SIZE * (page - 1)] + Slice(xs, page) == xs[..Least(PAGE_SIZE * page, |xs|)]
    ensures |Slice(xs, page)| < PAGE_SIZE <==> |xs| < PAGE_SIZE * page
    ensures |xs| < PAGE_SIZE * page ==> xs[..Least(PAGE_SIZE * page, |xs|)] == xs
  {}

  lemma DictsStep(xs: seq<Entry>, page: nat)
    requires page >= 1 && PAGE_SIZE * (page - 1) <= |xs|
    ensures Dicts(xs[..PAGE_SIZE * (page - 1)]) + Dicts(Slice(xs, page)) == Dicts(xs[..Least(PAGE_SIZE * page, |xs|)])
  {
    SliceStep(xs, page);
    FilterAppend(xs[..PAGE_SIZE * (page - 1)], Slice(xs, page), (e: Entry) => !e.NoObject?);
  }

  lemma {:induction false} AcquireServed(xs: seq<Entry>, total: int, page: nat)
    requires 1 <= page <= ACQUIRER_PAGES + 1 && PAGE_SIZE * (page - 1) <= |xs|
    ensures Acquire(ServeEntries(xs, total), page, Dicts(xs[..PAGE_SIZE * (page - 1)]))
      == if |xs| < PAGE_SIZE * ACQUIRER_PAGES then Resolved(Dicts(xs)) else Refused
    decreases ACQUIRER_PAGES + 1 - page
  {
    hide Slice, Dicts;
    if page <= ACQUIRER_PAGES {
      SliceStep(xs, page);
      DictsStep(xs, page);
      if |xs| >= PAGE_SIZE * page { AcquireServed(xs, total, page + 1); }
    }
  }

  lemma {:induction false} DictsKeep(xs: seq<Entry>)
    requires NoObject !in xs
    ensures Dicts(xs) == xs
  {
    if xs != [] {
      assert xs[0] in xs;
      DictsKeep(xs[1..]);
      assert xs == [xs[0]] + xs[1..];
    }
  }

  /** Against an unchanging listing of fewer than 5000 members the acquirer returns exactly its objects,
      with or without an id - the whole list when nothing else is in it - and it refuses any longer one. */
  lemma AcquireExact(xs: seq<Entry>, total: int)
    ensures Acquire(ServeEntries(xs, total), 1, []) == if |xs| < 5000 then Resolved(Dicts(xs)) else Refused
    ensures NoObject !in xs ==> Dicts(xs) == xs
  {
    assert xs[..0] == [] && Dicts(xs[..0]) == [];
    AcquireServed(xs, total, 1);
    if NoObject !in xs { DictsKeep(xs); }
  }

  lemma {:induction false} PagesServed(xs: seq<Item>, total: int, page: nat)
    requires 1 <= page <= GUARD_PAGES + 1 && PAGE_SIZE * (page - 1) <= |xs|
    ensures Pages(Serve(xs, total), page, xs[..PAGE_SIZE * (page - 1)])
      == if |xs| < PAGE_SIZE * GUARD_PAGES && DistinctIds(xs) then Resolved(xs) else Refused
    decreases GUARD_PAGES + 1 - page
  {
    hide Slice, DistinctIds, Objects;
    if page <= GUARD_PAGES {
      SliceStep(xs, page);
      ObjectsOfWrap(Slice(xs, page));
      if |xs| >= PAGE_SIZE * page { PagesServed(xs, total, page + 1); }
    }
  }

  lemma PagesExact(xs: seq<Item>, total: int)
    ensures Pages(Serve(xs, total), 1, []) == if |xs| < 2000 && DistinctIds(xs) then Resolved(xs) else Refused
  {
    assert xs[..0] == [];
    PagesServed(xs, total, 1);
  }

  lemma PositiveUpto(xs: seq<Item>, page: nat)
    requires 1 <= page && PAGE_SIZE * (page - 1) <= |xs|
    requires PositiveIds(xs[..PAGE_SIZE * (page - 1)]) && PositiveIds(Slice(xs, page))
    ensures PositiveIds(xs[..Least(PAGE_SIZE * page, |xs|)])
  {
    SliceStep(xs, page);
    var before, upto := xs[..PAGE_SIZE * (page - 1)], xs[..Least(PAGE_SIZE * page, |xs|)];
    forall i | i in upto ensures i.id > 0 { assert i in before + Slice(xs, page); }
  }

  lemma NotPositive(xs: seq<Item>, page: nat)
    requires 1 <= page && PAGE_SIZE * (page - 1) <= |xs| && !PositiveIds(Slice(xs, page))
    ensures !PositiveIds(xs)
  {
    var i :| i in Slice(xs, page) && i.id <= 0;
    assert i in xs;
  }

  lemma {:induction false} EnvelopeServed(xs: seq<Item>, total: int, page: nat, expected: Option<int>)
    requires 1 <= page <= GUARD_PAGES + 1 && PAGE_SIZE * (page - 1) <= |xs|
    requires expected == None || expected == Some(total)
    requires PositiveIds(xs[..PAGE_SIZE * (page - 1)])
    ensures EnvelopePages(Serve(xs, total), page, xs[..PAGE_SIZE * (page - 1)], expected)
      == if |xs| < PAGE_SIZE * GUARD_PAGES && total == |xs| && PositiveIds(xs) && DistinctIds(xs) then Resolved(xs) else Refused
    decreases GUARD_PAGES + 1 - page
  {
    hide Slice, DistinctIds, Objects;
    if page <= GUARD_PAGES {
      SliceStep(xs, page);
      ObjectsOfWrap(Slice(xs, page));
      if !PositiveIds(Slice(xs, page)) {
        NotPositive(xs, page);
      } else if total >= 0 {
        PositiveUpto(xs, page);
        if |xs| >= PAGE_SIZE * page { EnvelopeServed(xs, total, page + 1, Some(total)); }
      }
    }
  }

  /** The guard's reader also refuses a wrong count, a non-positive id and a repeated id, and nothing else. */
  lemma EnvelopeExact(xs: seq<Item>, total: int)
    ensures EnvelopePages(Serve(xs, total), 1, [], None)
      == if |xs| < 2000 && total == |xs| && PositiveIds(xs) && DistinctIds(xs) then Resolved(xs) else Refused
  {
    assert xs[..0] == [];
    EnvelopeServed(xs, total, 1, None);
  }

  // ---- What a successful read says about the responses -----------------------------------------------

  /** The server honours `per_page`. */
  ghost predicate Bounded(get: nat -> Response) {
    forall page :: get(page).Listing? ==> |get(page).entries| <= PAGE_SIZE
  }

  /** The pages a successful read of `xs` asked for. */
  function Asked(xs: seq<Item>): nat {
    |xs| / PAGE_SIZE + 1
  }

  ghost predicate AgreeUpto(f: nat -> Response, g: nat -> Response, from: nat, to: nat) {
    forall page :: from <= page <= to ==> f(page) == g(page)
  }

  lemma ServedPage(xs: seq<Item>, total: int, page: nat, entries: seq<Entry>)
    requires page >= 1 && PAGE_SIZE * (page - 1) + |entries| <= |xs| && |entries| <= PAGE_SIZE && WellFormed(entries)
    requires |entries| == PAGE_SIZE || PAGE_SIZE * (page - 1) + |entries| == |xs|
    requires xs[PAGE_SIZE * (page - 1)..PAGE_SIZE * (page - 1) + |entries|] == Objects(entries)
    ensures Serve(xs, total)(page) == Listing(total, entries)
  {
    WrapOfObjects(entries);
    assert Slice(xs, page) == Objects(entries);
  }

  lemma {:induction false} PagesExtend(get: nat -> Response, page: nat, items: seq<Item>)
    requires Pages(get, page, items).Resolved?
    ensures items <= Pages(get, page, items).value
    decreases GUARD_PAGES + 1 - page
  {
    var entries := get(page).entries;
    var more := items + Objects(entries);
    if |entries| >= PAGE_SIZE { PagesExtend(get, page + 1, more); }
  }

  lemma {:induction false} ObjectsCount(entries: seq<Entry>)
    requires WellFormed(entries)
    ensures |Objects(entries)| == |entries|
  {
    WrapOfObjects(entries);
  }

  /** A read that returned `xs` saw, on every page it asked for, exactly what a server holding `xs`
      would have shown - even if the pages were fetched at different times. */
  lemma {:induction false} PagesMeanServed(get: nat -> Response, page: nat, items: seq<Item>, xs: seq<Item>)
    requires Bounded(get) && 1 <= page && |items| == PAGE_SIZE * (page - 1)
    requires Pages(get, page, items) == Resolved(xs)
    ensures forall p :: page <= p <= Asked(xs) ==> get(p).Listing? && Serve(xs, get(p).total)(p) == get(p)
    ensures page <= Asked(xs) <= GUARD_PAGES
    decreases GUARD_PAGES + 1 - page
  {
    hide Serve, Objects, WellFormed, DistinctIds;
    var entries := get(page).entries;
    var more := items + Objects(entries);
    assert WellFormed(entries);
    ObjectsCount(entries);
    PagesExtend(get, page, items);
    if |entries| < PAGE_SIZE {
      assert xs == more && Asked(xs) == page;
    } else {
      PagesMeanServed(get, page + 1, more, xs);
      PagesExtend(get, page + 1, more);
      assert more == xs[..|more|];
    }
    assert xs[|items|..|items| + |entries|] == Objects(entries);
    ServedPage(xs, get(page).total, page, entries);
  }

  lemma {:induction false} PagesDepend(f: nat -> Response, g: nat -> Response, page: nat, items: seq<Item>, last: nat)
    requires Pages(f, page, items).Resolved? && last == Asked(Pages(f, page, items).value)
    requires Bounded(f) && 1 <= page && |items| == PAGE_SIZE * (page - 1)
    requires AgreeUpto(f, g, page, last)
    ensures Pages(g, page, items) == Pages(f, page, items)
    decreases GUARD_PAGES + 1 - page
  {
    PagesMeanServed(f, page, items, Pages(f, page, items).value);
    assert f(page) == g(page);
    var entries := f(page).entries;
    ObjectsCount(entries);
    if |entries| >= PAGE_SIZE { PagesDepend(f, g, page + 1, items + Objects(entries), last); }
  }

  lemma {:induction false} EnvelopeIsPages(get: nat -> Response, page: nat, items: seq<Item>, expected: Option<int>)
    requires EnvelopePages(get, page, items, expected).Resolved?
    ensures Pages(get, page, items) == EnvelopePages(get, page, items, expected)
    decreases GUARD_PAGES + 1 - page
  {
    var entries := get(page).entries;
    if |entries| >= PAGE_SIZE { EnvelopeIsPages(get, page + 1, items + Objects(entries), Some(get(page).total)); }
  }

  lemma {:induction false} EnvelopeTotals(get: nat -> Response, page: nat, items: seq<Item>, expected: Option<int>, xs: seq<Item>)
    requires EnvelopePages(get, page, items, expected) == Resolved(xs)
    ensures expected.Some? ==> expected.value == |xs|
    ensures get(page).Listing? && get(page).total == |xs|
    decreases GUARD_PAGES + 1 - page
  {
    var entries := get(page).entries;
    if |entries| >= PAGE_SIZE {
      EnvelopeTotals(get, page + 1, items + Objects(entries), Some(get(page).total), xs);
    }
  }

  /** Every page of a successful read declared the final count. */
  lemma {:induction false} EnvelopeTotal(
    get: nat -> Response, page: nat, items: seq<Item>, expected: Option<int>, xs: seq<Item>, p: nat)
    requires Bounded(get) && 1 <= page <= p <= Asked(xs) && |items| == PAGE_SIZE * (page - 1)
    requires EnvelopePages(get, page, items, expected) == Resolved(xs)
    ensures get(p).Listing? && get(p).total == |xs|
    decreases p - page
  {
    EnvelopeTotals(get, page, items, expected, xs);
    if page < p {
      var entries := get(page).entries;
      ObjectsCount(entries);
      EnvelopeTotal(get, page + 1, items + Objects(entries), Some(get(page).total), xs, p);
    }
  }

  lemma {:induction false} EnvelopeDepend(
    f: nat -> Response, g: nat -> Response, page: nat, items: seq<Item>, expected: Option<int>, last: nat)
    requires EnvelopePages(f, page, items, expected).Resolved? && last == Asked(EnvelopePages(f, page, items, expected).value)
    requires Bounded(f) && 1 <= page && |items| == PAGE_SIZE * (page - 1)
    requires AgreeUpto(f, g, page, last)
    ensures EnvelopePages(g, page, items, expected) == EnvelopePages(f, page, items, expected)
    decreases GUARD_PAGES + 1 - page
  {
    EnvelopeIsPages(f, page, items, expected);
    PagesMeanServed(f, page, items, EnvelopePages(f, page, items, expected).value);
    assert f(page) == g(page);
    var entries := f(page).entries;
    ObjectsCount(entries);
    if |entries| >= PAGE_SIZE {
      EnvelopeDepend(f, g, page + 1, items + Objects(entries), Some(f(page).total), last);
    }
  }

  // ---- Any responses at all ------------------------------------------------------------------------

  /** A read of at most `limit` pages ends with page `last`: every page up to it is a listing, and it is the
      first one with fewer than 100 entries. */
  ghost predicate EndsAt(get: nat -> Response, limit: nat, last: nat) {
    && 1 <= last <= limit
    && (forall p :: 1 <= p <= last ==> get(p).Listing?)
    && (forall p :: 1 <= p < last ==> |get(p).entries| >= 100)
    && |get(last).entries| < 100
  }

  /** Every page before `page` is a full listing. */
  ghost predicate FullBefore(get: nat -> Response, page: nat) {
    forall p :: 1 <= p < page ==> get(p).Listing? && |get(p).entries| >= 100
  }

  /** The entries of the pages up to `last`, in order. */
  function EntriesUpto(get: nat -> Response, last: nat): seq<Entry> {
    if last == 0 then []
    else EntriesUpto(get, last - 1) + if get(last).Listing? then get(last).entries else []
  }

  lemma EndsHere(get: nat -> Response, limit: nat, page: nat)
    requires 1 <= page <= limit && FullBefore(get, page) && get(page).Listing?
    ensures |get(page).entries| < 100 ==> forall last :: page <= last ==> (EndsAt(get, limit, last) <==> last == page)
    ensures |get(page).entries| >= 100 ==> FullBefore(get, page + 1) && !EndsAt(get, limit, page)
  {}

  lemma DictsUpto(get: nat -> Response, page: nat)
    requires page >= 1 && get(page).Listing?
    ensures Dicts(EntriesUpto(get, page)) == Dicts(EntriesUpto(get, page - 1)) + Dicts(get(page).entries)
  {
    FilterAppend(EntriesUpto(get, page - 1), get(page).entries, (e: Entry) => !e.NoObject?);
  }

  lemma {:induction false} AcquireFrom(get: nat -> Response, page: nat, xs: seq<Entry>)
    requires 1 <= page <= 51 && FullBefore(get, page)
    ensures Acquire(get, page, Dicts(EntriesUpto(get, page - 1))) == Resolved(xs)
      <==> exists last :: page <= last && EndsAt(get, 50, last) && xs == Dicts(EntriesUpto(get, last))
    decreases 51 - page
  {
    hide EntriesUpto, Dicts, FullBefore;
    if page <= 50 && get(page).Listing? {
      DictsUpto(get, page);
      EndsHere(get, 50, page);
      if |get(page).entries| >= 100 { AcquireFrom(get, page + 1, xs); }
    }
  }

  /** The acquirer, for any responses: it returns a list exactly when the pages up to the first short one, of
      which there are at most 50, are all listings, and then the objects on them. */
  lemma AcquireIff(get: nat -> Response, xs: seq<Entry>)
    ensures Acquire(get, 1, []) == Resolved(xs)
      <==> exists last :: EndsAt(get, 50, last) && xs == Filter(EntriesUpto(get, last), (e: Entry) => !e.NoObject?)
  {
    AcquireFrom(get, 1, xs);
    assert Dicts(EntriesUpto(get, 0)) == [];
  }

  lemma {:induction false} ObjectsAppend(a: seq<Entry>, b: seq<Entry>)
    ensures Objects(a + b) == Objects(a) + Objects(b)
    ensures WellFormed(a + b) <==> WellFormed(a) && WellFormed(b)
  {
    if a == [] {
      assert a + b == b;
    } else {
      assert (a + b)[1..] == a[1..] + b;
      ObjectsAppend(a[1..], b);
      assert forall e :: e in a + b <==> e in a || e in b;
    }
  }

  lemma ObjectsUpto(get: nat -> Response, page: nat)
    requires page >= 1 && get(page).Listing?
    ensures Objects(EntriesUpto(get, page)) == Objects(EntriesUpto(get, page - 1)) + Objects(get(page).entries)
    ensures WellFormed(EntriesUpto(get, page)) <==> WellFormed(EntriesUpto(get, page - 1)) && WellFormed(get(page).entries)
  {
    ObjectsAppend(EntriesUpto(get, page - 1), get(page).entries);
  }

  lemma {:induction false} IllFormedStays(get: nat -> Response, page: nat, last: nat)
    requires page <= last && !WellFormed(EntriesUpto(get, page))
    ensures !WellFormed(EntriesUpto(get, last))
    decreases last
  {
    if page < last {
      IllFormedStays(get, page, last - 1);
      if get(last).Listing? { ObjectsUpto(get, last); }
    }
  }

  /** `xs` are the entries of the pages up to `last`, all objects with ids, and no id repeats. */
  ghost predicate HoldsUpto(get: nat -> Response, last: nat, xs: seq<Item>) {
    && EntriesUpto(get, last) == Wrap(xs)
    && forall i, j :: 0 <= i < j < |xs| ==> xs[i].id != xs[j].id
  }

  lemma HoldsIff(get: nat -> Response, last: nat, xs: seq<Item>)
    ensures HoldsUpto(get, last, xs) <==>
      WellFormed(EntriesUpto(get, last)) && xs == Objects(EntriesUpto(get, last)) && DistinctIds(xs)
  {
    ObjectsOfWrap(xs);
    if WellFormed(EntriesUpto(get, last)) { WrapOfObjects(EntriesUpto(get, last)); }
  }

  lemma {:induction false} PagesFrom(get: nat -> Response, page: nat, xs: seq<Item>)
    requires 1 <= page <= 21 && FullBefore(get, page) && WellFormed(EntriesUpto(get, page - 1))
    ensures Pages(get, page, Objects(EntriesUpto(get, page - 1))) == Resolved(xs)
      <==> exists last :: page <= last && EndsAt(get, 20, last) && HoldsUpto(get, last, xs)
    decreases 21 - page
  {
    hide EntriesUpto, Objects, FullBefore, HoldsUpto, WellFormed, DistinctIds;
    if page <= 20 && get(page).Listing? {
      ObjectsUpto(get, page);
      EndsHere(get, 20, page);
      forall last: nat ensures HoldsUpto(get, last, xs) <==>
        WellFormed(EntriesUpto(get, last)) && xs == Objects(EntriesUpto(get, last)) && DistinctIds(xs)
      {
        HoldsIff(get, last, xs);
      }
      if !WellFormed(get(page).entries) {
        forall last: nat | page <= last ensures !WellFormed(EntriesUpto(get, last)) { IllFormedStays(get, page, last); }
      } else if |get(page).entries| >= 100 {
        PagesFrom(get, page + 1, xs);
      }
    }
  }

  /** The guard's list reader, for any responses: it returns `xs` exactly when the pages up to the first short
      one, of which there are at most 20, are listings of objects that are together `xs`, ids all different. */
  lemma PagesIff(get: nat -> Response, xs: seq<Item>)
    ensures Pages(get, 1, []) == Resolved(xs) <==> exists last :: EndsAt(get, 20, last) && HoldsUpto(get, last, xs)
  {
    PagesFrom(get, 1, xs);
    assert Objects(EntriesUpto(get, 0)) == [];
  }

  lemma PositiveBoth(a: seq<Item>, b: seq<Item>)
    ensures PositiveIds(a + b) <==> PositiveIds(a) && PositiveIds(b)
  {
    assert forall i :: i in a + b <==> i in a || i in b;
  }

  lemma {:induction false} NotPositiveStays(get: nat -> Response, page: nat, last: nat)
    requires page <= last && !PositiveIds(Objects(EntriesUpto(get, page)))
    ensures !PositiveIds(Objects(EntriesUpto(get, last)))
    decreases last
  {
    if page < last {
      NotPositiveStays(get, page, last - 1);
      if get(last).Listing? {
        ObjectsUpto(get, last);
        PositiveBoth(Objects(EntriesUpto(get, last - 1)), Objects(get(last).entries));
      } else {
        assert EntriesUpto(get, last) == EntriesUpto(get, last - 1);
      }
    }
  }

  /** Every page up to `last` is a listing that declares `n` members. */
  ghost predicate DeclareUpto(get: nat -> Response, last: nat, n: int) {
    forall p :: 1 <= p <= last ==> get(p).Listing? && get(p).total == n
  }

  lemma {:induction false} EnvelopeFrom(get: nat -> Response, page: nat, xs: seq<Item>, expected: Option<int>)
    requires 1 <= page <= 21 && FullBefore(get, page) && WellFormed(EntriesUpto(get, page - 1))
    requires PositiveIds(Objects(EntriesUpto(get, page - 1)))
    requires if page == 1 then expected.None? else expected.Some? && DeclareUpto(get, page - 1, expected.value)
    ensures EnvelopePages(get, page, Objects(EntriesUpto(get, page - 1)), expected) == Resolved(xs)
      <==> exists last ::
        page <= last && EndsAt(get, 20, last) && HoldsUpto(get, last, xs) && DeclareUpto(get, last, |xs|) && PositiveIds(xs)
    decreases 21 - page
  {
    hide EntriesUpto, Objects, FullBefore, HoldsUpto, WellFormed, DistinctIds, PositiveIds;
    if page <= 20 && get(page).Listing? {
      var entries := get(page).entries;
      ObjectsUpto(get, page);
      PositiveBoth(Objects(EntriesUpto(get, page - 1)), Objects(entries));
      EndsHere(get, 20, page);
      forall last: nat ensures HoldsUpto(get, last, xs) <==>
        WellFormed(EntriesUpto(get, last)) && xs == Objects(EntriesUpto(get, last)) && DistinctIds(xs)
      {
        HoldsIff(get, last, xs);
      }
      if !WellFormed(entries) {
        forall last: nat | page <= last ensures !WellFormed(EntriesUpto(get, last)) { IllFormedStays(get, page, last); }
      } else if !PositiveIds(Objects(entries)) {
        forall last: nat | page <= last ensures !PositiveIds(Objects(EntriesUpto(get, last))) { NotPositiveStays(get, page, last); }
      } else if get(page).total >= 0 && (expected.Some? ==> expected.value == get(page).total) && |entries| >= 100 {
        EnvelopeFrom(get, page + 1, xs, Some(get(page).total));
      }
    }
  }

  lemma NoObjects()
    ensures Objects([]) == []
  {}

  /** The guard's envelope reader asks in addition that every page it read declares as many members as it
      returns, and that their ids are positive. */
  lemma EnvelopeIff(get: nat -> Response, xs: seq<Item>)
    ensures EnvelopePages(get, 1, [], None) == Resolved(xs) <==>
      exists last ::
        && EndsAt(get, 20, last) && HoldsUpto(get, last, xs)
        && (forall p :: 1 <= p <= last ==> get(p).Listing? && get(p).total == |xs|)
        && (forall x :: x in xs ==> x.id >= 1)
  {
    hide Objects, HoldsUpto, EnvelopePages;
    assert EntriesUpto(get, 0) == [];
    NoObjects();
    EnvelopeFrom(get, 1, xs, None);
  }

  // ---- The loops ---------------------------------------------------------------------------------

  /** `paginate_envelope_v2` */
  method AcquireAll(get: nat -> Response) returns (result: Outcome<seq<Entry>>)
    ensures result == Acquire(get, 1, [])
  {
    var items: seq<Entry> := [];
    for page := 1 to ACQUIRER_PAGES + 1
      invariant Acquire(get, 1, []) == Acquire(get, page, items)
    {
      var response := get(page);
      if response.NotListing? {
        return Refused;
      }
      items := items + Dicts(response.entries);
      if |response.entries| < PAGE_SIZE {
        return Resolved(items);
      }
    }
    result := Refused;
  }

  /** `_pages` */
  method PagesAll(get: nat -> Response) returns (result: Outcome<seq<Item>>)
    ensures result == Pages(get, 1, [])
  {
    var items := [];
    for page := 1 to GUARD_PAGES + 1
      invariant Pages(get, 1, []) == Pages(get, page, items)
    {
      var response := get(page);
      if response.NotListing? || !WellFormed(response.entries) {
        return Refused;
      }
      items := items + Objects(response.entries);
      if |response.entries| < PAGE_SIZE {
        if !DistinctIds(items) {
          return Refused;
        }
        return Resolved(items);
      }
    }
    result := Refused;
  }

  /** `_envelope_pages` */
  method EnvelopeAll(get: nat -> Response) returns (result: Outcome<seq<Item>>)
    ensures result == EnvelopePages(get, 1, [], None)
  {
    var items := [];
    var expected := None;
    for page := 1 to GUARD_PAGES + 1
      invariant EnvelopePages(get, 1, [], None) == EnvelopePages(get, page, items, expected)
    {
      var response := get(page);
      if response.NotListing? || !WellFormed(response.entries) || !PositiveIds(Objects(response.entries)) || response.total < 0 {
        return Refused;
      }
      if expected.None? {
        expected := Some(response.total);
      } else if response.total != expected.value {
        return Refused;
      }
      items := items + Objects(response.entries);
      if |response.entries| < PAGE_SIZE {
        if |items| != expected.value || !DistinctIds(items) {
          return Refused;
        }
        return Resolved(items);
      }
    }
    result := Refused;
  }
}
