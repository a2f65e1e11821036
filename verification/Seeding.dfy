/** The benchmark data of `run_benchmark` in scripts/benchmark_matcher.py, and what the two queries count on it. */
module Seeding {
  import opened Matcher
  import opened Outcomes
  import opened RoundRobin

  /** The `BENCH_*` settings, with the offer action already defaulted. */
  datatype Settings = Settings(needed: nat, locations: nat, action: int, typeId: int, offerAction: int,
                               wildcardPct: int, wilayaPct: int, nationwidePct: int)

  /** `BENCH_OFFER_ACTION_ID`, or its default. */
  function DefaultOfferAction(setting: Option<int>, action: int): int {
    if setting.Some? then setting.value else if action == 1 then 3 else if action == 2 then 2 else action
  }

  /** The keys the database hands out, in order, and the benchmark locations in order of their id. */
  datatype Keys = Keys(clients: seq<int>, listings: seq<int>, demandes: seq<int>, offers: seq<int>, locations: seq<int>)

  ghost predicate Increasing(ids: seq<int>) {
    forall i, j | 0 <= i < j < |ids| :: ids[i] < ids[j]
  }

  ghost predicate GoodKeys(s: Settings, k: Keys) {
    && |k.clients| == |k.listings| == |k.demandes| == |k.offers| == s.needed && |k.locations| == s.locations
    && Increasing(k.clients) && Increasing(k.listings) && Increasing(k.demandes) && Increasing(k.offers) && Increasing(k.locations)
  }

  /** The run stops: percentages above 100 in sum, a modulus of zero, or a negative LIMIT. */
  predicate Rejected(s: Settings) {
    || s.wildcardPct + s.wilayaPct + s.nationwidePct > 100
    || (s.needed > 0 && (s.locations == 0 || s.wildcardPct < 0 || s.wilayaPct < 0 || s.nationwidePct < 0))
  }

  /** `needed * pct // 100` */
  function Share(s: Settings, pct: int): int {
    s.needed * pct / 100
  }

  function Slice1(s: Settings): int { Share(s, s.wildcardPct) }
  function Slice2(s: Settings): int { Share(s, s.wilayaPct) }
  function Slice3(s: Settings): int { Share(s, s.nationwidePct) }
  function Rest(s: Settings): int { Slice1(s) + Slice2(s) + Slice3(s) }

  /** `n` is so many percent of the wanted number, rounded down. */
  ghost predicate IsShare(s: Settings, pct: int, n: int) {
    0 <= n && 100 * n <= s.needed * pct < 100 * n + 100
  }

  lemma ShareBound(s: Settings, pct: int)
    requires pct >= 0
    ensures 0 <= Share(s, pct) && 100 * Share(s, pct) <= s.needed * pct
  {
    Square(0);
    assert s.needed * pct >= 0;
  }

  lemma ShareExact(s: Settings, pct: int, n: int)
    requires pct >= 0
    ensures IsShare(s, pct, n) <==> n == Share(s, pct)
  {
    ShareBound(s, pct);
    var all := s.needed * pct;
    assert 100 * (all / 100) <= all < 100 * (all / 100) + 100;
  }

  /** The three slices are disjoint stretches of the demandes. */
  lemma SlicesFit(s: Settings)
    requires !Rejected(s)
    ensures s.needed > 0 ==> 0 <= Slice1(s) && 0 <= Slice2(s) && 0 <= Slice3(s)
    ensures 0 <= Slice1(s) <= Slice1(s) + Slice2(s) <= Rest(s) <= s.needed
  {
    if s.needed > 0 {
      ShareBound(s, s.wildcardPct);
      ShareBound(s, s.wilayaPct);
      ShareBound(s, s.nationwidePct);
      assert s.needed * s.wildcardPct + s.needed * s.wilayaPct + s.needed * s.nationwidePct ==
             s.needed * (s.wildcardPct + s.wilayaPct + s.nationwidePct);
      assert s.needed * (s.wildcardPct + s.wilayaPct + s.nationwidePct) <= s.needed * 100 by {
        Monotone(s.needed, s.wildcardPct + s.wilayaPct + s.nationwidePct, 100);
      }
    } else {
      assert Share(s, s.wildcardPct) == 0 && Share(s, s.wilayaPct) == 0 && Share(s, s.nationwidePct) == 0;
    }
  }

  lemma Monotone(n: nat, a: int, b: int)
    requires a <= b
    ensures n * a <= n * b
  {
  }

  /***** Rows *****/

  function Between(lo: real, hi: real): Option<Range> {
    Some(Span(Some(lo), true, Some(hi), true))
  }

  function NewDemande(s: Settings, k: Keys, i: nat): Demande
    requires i < |k.clients| && i < |k.demandes|
  {
    Demande(k.demandes[i], k.clients[i], Some(s.typeId), Some(s.action), Some(1), None, None, Some(0), Some(100),
            Between(100.0, 200.0), Between(50.0, 100.0), Some(Span(Some(2.0), true, Some(5.0), false)), false)
  }

  function NewOffer(s: Settings, k: Keys, i: nat): Offer
    requires i < |k.listings| && i < |k.offers|
  {
    Offer(k.offers[i], k.listings[i], Some(s.typeId), Some(s.offerAction), Some(1), Some(1), Some(1), Some(0),
          Between(100.0, 200.0), Some(75.0), Some(3), true, false)
  }

  /** `SELECT id FROM demandes ORDER BY id OFFSET ... LIMIT ...`, on rows already in that order. */
  function Pick(demandes: seq<Demande>, offset: int, limit: int): set<int> {
    set i | 0 <= i < |demandes| && offset <= i < offset + limit :: demandes[i].id
  }

  function WithoutOwners(links: seq<Link>, gone: set<int>): seq<Link> {
    if links == [] then []
    else
      var last := links[|links| - 1];
      WithoutOwners(links[..|links| - 1], gone) + if last.owner in gone then [] else [last]
  }

  function Updated(demandes: seq<Demande>, picked: set<int>, change: Demande -> Demande): seq<Demande> {
    seq(|demandes|, i requires 0 <= i < |demandes| => if demandes[i].id in picked then change(demandes[i]) else demandes[i])
  }

  /***** The seeded data, row by row *****/

  /** Flags with those from `lo` up to `hi` put out. */
  function Cut(flags: seq<bool>, lo: int, hi: int): (cut: seq<bool>)
    ensures |cut| == |flags|
  {
    seq(|flags|, i requires 0 <= i < |flags| => flags[i] && !(lo <= i < hi))
  }

  function AllOf(n: nat): seq<bool> {
    seq(n, i => true)
  }

  /** The demandes that keep their location: all but the wilaya and the nationwide slice. */
  function Kept(s: Settings): (flags: seq<bool>)
    ensures |flags| == s.needed
  {
    Cut(AllOf(s.needed), Slice1(s), Rest(s))
  }

  function SeededDemande(s: Settings, k: Keys, i: nat): Demande
    requires i < |k.clients| && i < |k.demandes|
  {
    var d := NewDemande(s, k, i);
    if i < Slice1(s) then d.(typeId := None)
    else if Slice1(s) + Slice2(s) <= i < Rest(s) then d.(wilayaId := None)
    else d
  }

  /** The location links of those of the first `n` rows that are in `kept`. */
  function LinksBelow(owners: seq<int>, locations: seq<int>, kept: seq<bool>, n: nat): seq<Link>
    requires n <= |owners| == |kept| && (n > 0 ==> |locations| > 0)
  {
    if n == 0 then []
    else LinksBelow(owners, locations, kept, n - 1) +
         if kept[n - 1] then [Link(owners[n - 1], locations[(n - 1) % |locations|])] else []
  }

  ghost function SeededData(s: Settings, k: Keys): Data
    requires GoodKeys(s, k) && !Rejected(s)
  {
    Data(
      seq(s.needed, i requires 0 <= i < s.needed => SeededDemande(s, k, i)),
      LinksBelow(k.demandes, k.locations, Kept(s), s.needed),
      LinksBelow(k.offers, k.locations, AllOf(s.needed), s.needed),
      seq(s.needed, i requires 0 <= i < s.needed => NewOffer(s, k, i)),
      seq(s.needed, i requires 0 <= i < s.needed => Listing(k.listings[i], Some(AVAILABLE), false)))
  }

  lemma PickByPosition(demandes: seq<Demande>, offset: int, limit: int, i: nat)
    requires i < |demandes| && forall a, b | 0 <= a < b < |demandes| :: demandes[a].id < demandes[b].id
    ensures demandes[i].id in Pick(demandes, offset, limit) <==> offset <= i < offset + limit
  {
    if demandes[i].id in Pick(demandes, offset, limit) {
      var j :| 0 <= j < |demandes| && offset <= j < offset + limit && demandes[j].id == demandes[i].id;
      assert i == j;
    }
  }

  lemma {:induction false} LinksDeleted(owners: seq<int>, locations: seq<int>, kept: seq<bool>, n: nat, gone: set<int>, lo: int, hi: int)
    requires n <= |owners| == |kept| && (n > 0 ==> |locations| > 0)
    requires forall i | 0 <= i < n :: owners[i] in gone <==> lo <= i < hi
    ensures WithoutOwners(LinksBelow(owners, locations, kept, n), gone) == LinksBelow(owners, locations, Cut(kept, lo, hi), n)
  {
    hide WithoutOwners, Cut, LinksBelow;
    if n == 0 {
      NoLinks(owners, locations, kept, gone);
      NoLinks(owners, locations, Cut(kept, lo, hi), gone);
    } else {
      LinksDeleted(owners, locations, kept, n - 1, gone, lo, hi);
      CutLast(kept, lo, hi, n - 1);
      var last := LinksNext(owners, locations, kept, n);
      var same := LinksNext(owners, locations, Cut(kept, lo, hi), n);
      LastWithout(LinksBelow(owners, locations, kept, n - 1), last, gone);
    }
  }

  lemma NoLinks(owners: seq<int>, locations: seq<int>, kept: seq<bool>, gone: set<int>)
    requires |owners| == |kept|
    ensures LinksBelow(owners, locations, kept, 0) == [] && WithoutOwners([], gone) == []
  {
  }

  lemma LinksNext(owners: seq<int>, locations: seq<int>, kept: seq<bool>, n: nat) returns (last: Link)
    requires 0 < n <= |owners| == |kept| && |locations| > 0
    ensures last == Link(owners[n - 1], locations[(n - 1) % |locations|])
    ensures var init := LinksBelow(owners, locations, kept, n - 1);
            LinksBelow(owners, locations, kept, n) == if kept[n - 1] then init + [last] else init
  {
    last := Link(owners[n - 1], locations[(n - 1) % |locations|]);
  }

  lemma CutLast(flags: seq<bool>, lo: int, hi: int, i: nat)
    requires i < |flags|
    ensures Cut(flags, lo, hi)[i] == (flags[i] && !(lo <= i < hi))
  {
  }

  lemma LastWithout(init: seq<Link>, last: Link, gone: set<int>)
    ensures WithoutOwners(init + [last], gone) == WithoutOwners(init, gone) + if last.owner in gone then [] else [last]
  {
    assert (init + [last])[..|init|] == init;
  }

  /***** The seeded data, plainly *****/

  /** A row and its location, dealt out in turn. */
  ghost predicate Dealt(owners: seq<int>, locations: seq<int>, i: int, link: Link) {
    0 <= i < |owners| && |locations| > 0 && link.owner == owners[i] && link.location == locations[i % |locations|]
  }

  /**
   * The data after seeding with slices of `a`, `b` and `c` demandes: the first slice takes any type, the second has no
   * location, the third neither location nor wilaya.
   */
  ghost predicate Plain(s: Settings, k: Keys, db: Data, a: int, b: int, c: int)
    requires GoodKeys(s, k)
  {
    && |db.demandes| == |db.offers| == |db.listings| == s.needed
    && (forall i | 0 <= i < s.needed ::
          && db.demandes[i] == Demande(
               k.demandes[i], k.clients[i], if i < a then None else Some(s.typeId), Some(s.action),
               if a + b <= i < a + b + c then None else Some(1), None, None, Some(0), Some(100),
               Some(Span(Some(100.0), true, Some(200.0), true)), Some(Span(Some(50.0), true, Some(100.0), true)),
               Some(Span(Some(2.0), true, Some(5.0), false)), false)
          && db.offers[i] == Offer(
               k.offers[i], k.listings[i], Some(s.typeId), Some(s.offerAction), Some(1), Some(1), Some(1), Some(0),
               Some(Span(Some(100.0), true, Some(200.0), true)), Some(75.0), Some(3), true, false)
          && db.listings[i] == Listing(k.listings[i], Some("available"), false))
    && (forall link :: link in db.demandeLinks <==>
          exists i :: Dealt(k.demandes, k.locations, i, link) && !(a <= i < a + b + c))
    && (forall link :: link in db.offerLinks <==> exists i :: Dealt(k.offers, k.locations, i, link))
  }

  /** What the statements make is that, for slices of the wanted percentages rounded down. */
  lemma SeededPlain(s: Settings, k: Keys, a: int, b: int, c: int)
    requires GoodKeys(s, k) && !Rejected(s)
    requires s.needed > 0 ==> IsShare(s, s.wildcardPct, a) && IsShare(s, s.wilayaPct, b) && IsShare(s, s.nationwidePct, c)
    ensures Plain(s, k, SeededData(s, k), a, b, c)
  {
    hide LinksBelow, Share;
    if s.needed > 0 {
      ShareExact(s, s.wildcardPct, a);
      ShareExact(s, s.wilayaPct, b);
      ShareExact(s, s.nationwidePct, c);
      SlicesFit(s);
    }
    var db := SeededData(s, k);
    forall link
      ensures link in db.demandeLinks <==> exists i :: Dealt(k.demandes, k.locations, i, link) && !(a <= i < a + b + c)
      ensures link in db.offerLinks <==> exists i :: Dealt(k.offers, k.locations, i, link)
    {
      LinksPlain(k.demandes, k.locations, Kept(s), link);
      LinksPlain(k.offers, k.locations, AllOf(s.needed), link);
    }
  }

  lemma LinksPlain(owners: seq<int>, locations: seq<int>, kept: seq<bool>, link: Link)
    requires |owners| == |kept| && (owners != [] ==> |locations| > 0)
    ensures link in LinksBelow(owners, locations, kept, |owners|) <==>
            exists i :: Dealt(owners, locations, i, link) && kept[i]
  {
    InLinksBelow(owners, locations, kept, |owners|, link);
    forall i | 0 <= i < |owners|
      ensures Dealt(owners, locations, i, link) <==> link.owner == owners[i] && link.location == locations[i % |locations|]
    {
    }
  }

  /** The session's own tables. */
  class Session {
    var demandes: seq<Demande>
    var demandeLinks: seq<Link>
    var offerLinks: seq<Link>
    var offers: seq<Offer>
    var listings: seq<Listing>

    constructor ()
    {
      demandes, demandeLinks, offerLinks, offers, listings := [], [], [], [], [];
    }

    ghost function Contents(): Data
      reads this
    {
      Data(demandes, demandeLinks, offerLinks, offers, listings)
    }

    /** Round-robin placement: the location of rank `(row_number - 1) % locations`, one per row. */
    method Attach(owners: seq<int>, locations: seq<int>) returns (links: seq<Link>)
      requires owners != [] ==> |locations| > 0
      ensures links == LinksBelow(owners, locations, AllOf(|owners|), |owners|)
    {
      links := [];
      for i := 0 to |owners|
        invariant links == LinksBelow(owners, locations, AllOf(|owners|), i)
      {
        links := links + [Link(owners[i], locations[i % |locations|])];
      }
    }

    /** `UPDATE demandes SET ... WHERE id IN (pick)` */
    method UpdatePicked(offset: int, limit: int, change: Demande -> Demande)
      requires forall a, b | 0 <= a < b < |demandes| :: demandes[a].id < demandes[b].id
      modifies this`demandes
      ensures |demandes| == |old(demandes)|
      ensures forall i | 0 <= i < |demandes| ::
                demandes[i] == if offset <= i < offset + limit then change(old(demandes)[i]) else old(demandes)[i]
    {
      PickAll(demandes, offset, limit);
      demandes := Updated(demandes, Pick(demandes, offset, limit), change);
    }

    /** `DELETE FROM demande_locations WHERE demande_id IN (pick)` */
    method DeleteLinksOfPicked(owners: seq<int>, locations: seq<int>, ghost kept: seq<bool>, offset: int, limit: int)
      requires forall a, b | 0 <= a < b < |demandes| :: demandes[a].id < demandes[b].id
      requires |demandes| == |owners| == |kept| && (owners != [] ==> |locations| > 0)
      requires forall i | 0 <= i < |owners| :: demandes[i].id == owners[i]
      requires demandeLinks == LinksBelow(owners, locations, kept, |owners|)
      modifies this`demandeLinks
      ensures demandeLinks == LinksBelow(owners, locations, Cut(kept, offset, offset + limit), |owners|)
    {
      PickAll(demandes, offset, limit);
      LinksDeleted(owners, locations, kept, |owners|, Pick(demandes, offset, limit), offset, offset + limit);
      demandeLinks := WithoutOwners(demandeLinks, Pick(demandes, offset, limit));
    }

    /** The INSERT, UPDATE and DELETE statements of `run_benchmark`, in their order. */
    method Seed(s: Settings, k: Keys) returns (ok: bool)
      requires GoodKeys(s, k)
      modifies this
      ensures ok <==> !Rejected(s)
      ensures ok ==> Contents() == SeededData(s, k)
      ensures ok ==>
                forall a, b, c | IsShare(s, s.wildcardPct, a) && IsShare(s, s.wilayaPct, b) && IsShare(s, s.nationwidePct, c) ::
                  Plain(s, k, Contents(), a, b, c)
    {
      hide LinksBelow, OfferAction, Slice1, Slice2, Slice3, SeededDemande, Kept;
      listings := seq(s.needed, i requires 0 <= i < s.needed => Listing(k.listings[i], Some(AVAILABLE), false));
      demandes := seq(s.needed, i requires 0 <= i < s.needed => NewDemande(s, k, i));
      if s.wildcardPct + s.wilayaPct + s.nationwidePct > 100 {
        return false;
      }
      if s.needed > 0 && (s.locations == 0 || s.wildcardPct < 0 || s.wilayaPct < 0 || s.nationwidePct < 0) {
        return false;
      }
      offers := seq(s.needed, i requires 0 <= i < s.needed => NewOffer(s, k, i));
      demandeLinks := Attach(k.demandes, k.locations);
      MakeSlices(s, k);
      offerLinks := Attach(k.offers, k.locations);
      assert Contents() == SeededData(s, k);
      hide SeededData, Plain, IsShare, Rejected, GoodKeys;
      forall a, b, c | IsShare(s, s.wildcardPct, a) && IsShare(s, s.wilayaPct, b) && IsShare(s, s.nationwidePct, c)
        ensures Plain(s, k, Contents(), a, b, c)
      {
        SeededPlain(s, k, a, b, c);
      }
      return true;
    }

    /** The updates and deletes that make the wildcard, wilaya and nationwide slices. */
    method MakeSlices(s: Settings, k: Keys)
      requires GoodKeys(s, k) && !Rejected(s)
      requires demandes == seq(s.needed, i requires 0 <= i < s.needed => NewDemande(s, k, i))
      requires demandeLinks == LinksBelow(k.demandes, k.locations, AllOf(s.needed), s.needed)
      modifies this`demandes, this`demandeLinks
      ensures demandes == SeededData(s, k).demandes && demandeLinks == SeededData(s, k).demandeLinks
    {
      hide LinksBelow, OfferAction, Slice1, Slice2, Slice3;
      var wildcard, wilaya, nationwide := Slice1(s), Slice2(s), Slice3(s);
      SlicesFit(s);
      if wildcard != 0 {
        UpdatePicked(0, wildcard, (d: Demande) => d.(typeId := None));
      }
      if wilaya != 0 {
        DeleteLinksOfPicked(k.demandes, k.locations, AllOf(s.needed), wildcard, wilaya);
      }
      var offset := wildcard + wilaya;
      ghost var kept := Cut(AllOf(s.needed), wildcard, offset);
      assert wilaya == 0 ==> kept == AllOf(s.needed);
      if nationwide != 0 {
        DeleteLinksOfPicked(k.demandes, k.locations, kept, offset, nationwide);
        UpdatePicked(offset, nationwide, (d: Demande) => d.(wilayaId := None));
      }
      assert Kept(s) == Cut(kept, offset, offset + nationwide);
      assert nationwide == 0 ==> Kept(s) == kept;
      assert demandes == SeededData(s, k).demandes;
    }
  }

  lemma PickAll(demandes: seq<Demande>, offset: int, limit: int)
    requires forall a, b | 0 <= a < b < |demandes| :: demandes[a].id < demandes[b].id
    ensures forall i | 0 <= i < |demandes| :: demandes[i].id in Pick(demandes, offset, limit) <==> offset <= i < offset + limit
  {
    forall i | 0 <= i < |demandes|
      ensures demandes[i].id in Pick(demandes, offset, limit) <==> offset <= i < offset + limit
    {
      PickByPosition(demandes, offset, limit, i);
    }
  }

  /***** What the queries count on it *****/

  /** The query's CASE maps the demandes' action to the offers' action. */
  predicate Mapped(s: Settings) {
    OfferAction(Some(s.action)) == Some(s.offerAction)
  }

  /** The default offer action is mapped exactly for the actions 1 and 2. */
  lemma DefaultMapped(s: Settings)
    ensures s.offerAction == DefaultOfferAction(None, s.action) ==> (Mapped(s) <==> s.action == 1 || s.action == 2)
    ensures forall given :: DefaultOfferAction(Some(given), s.action) == given
    ensures s.action != 1 && s.action != 2 ==> DefaultOfferAction(None, s.action) == s.action
  {
  }

  lemma {:induction false} InLinksBelow(owners: seq<int>, locations: seq<int>, kept: seq<bool>, n: nat, link: Link)
    requires n <= |owners| == |kept| && (n > 0 ==> |locations| > 0)
    ensures link in LinksBelow(owners, locations, kept, n) <==>
            exists i | 0 <= i < n :: kept[i] && link.owner == owners[i] && link.location == locations[i % |locations|]
  {
    if n > 0 {
      InLinksBelow(owners, locations, kept, n - 1, link);
    }
  }

  lemma IncreasingInjective(ids: seq<int>, i: nat, j: nat)
    requires Increasing(ids) && i < |ids| && j < |ids|
    ensures ids[i] == ids[j] <==> i == j
  {
  }

  lemma SeededHasLocation(s: Settings, k: Keys, i: nat)
    requires GoodKeys(s, k) && !Rejected(s) && i < s.needed
    ensures HasLocation(SeededData(s, k), SeededDemande(s, k, i)) <==> Kept(s)[i]
  {
    hide LinksBelow;
    var db, d := SeededData(s, k), SeededDemande(s, k, i);
    if Kept(s)[i] {
      var link := Link(k.demandes[i], k.locations[i % s.locations]);
      InLinksBelow(k.demandes, k.locations, Kept(s), s.needed, link);
      assert link in db.demandeLinks && link.owner == d.id;
    }
    if dl :| dl in db.demandeLinks && dl.owner == d.id {
      InLinksBelow(k.demandes, k.locations, Kept(s), s.needed, dl);
      var j :| 0 <= j < s.needed && Kept(s)[j] && dl.owner == k.demandes[j];
      IncreasingInjective(k.demandes, i, j);
    }
  }

  lemma SeededLinked(s: Settings, k: Keys, i: nat, j: nat)
    requires GoodKeys(s, k) && !Rejected(s) && i < s.needed && j < s.needed
    ensures Linked(SeededData(s, k), SeededDemande(s, k, i), NewOffer(s, k, j)) <==>
            Kept(s)[i] && i % s.locations == j % s.locations
  {
    hide LinksBelow;
    var db, d, o := SeededData(s, k), SeededDemande(s, k, i), NewOffer(s, k, j);
    if Kept(s)[i] && i % s.locations == j % s.locations {
      var dl, ol := Link(k.demandes[i], k.locations[i % s.locations]), Link(k.offers[j], k.locations[j % s.locations]);
      InLinksBelow(k.demandes, k.locations, Kept(s), s.needed, dl);
      assert AllOf(s.needed)[j];
      InLinksBelow(k.offers, k.locations, AllOf(s.needed), s.needed, ol);
      assert dl in db.demandeLinks && ol in db.offerLinks;
    }
    if dl, ol :| dl in db.demandeLinks && ol in db.offerLinks && dl.owner == d.id && ol.owner == o.id && dl.location == ol.location {
      InLinksBelow(k.demandes, k.locations, Kept(s), s.needed, dl);
      InLinksBelow(k.offers, k.locations, AllOf(s.needed), s.needed, ol);
      var a :| 0 <= a < s.needed && Kept(s)[a] && dl.owner == k.demandes[a] && dl.location == k.locations[a % s.locations];
      var b :| 0 <= b < s.needed && ol.owner == k.offers[b] && ol.location == k.locations[b % s.locations];
      IncreasingInjective(k.demandes, i, a);
      IncreasingInjective(k.offers, j, b);
      IncreasingInjective(k.locations, a % s.locations, b % s.locations);
    }
  }

  lemma SeededFits(s: Settings, k: Keys, i: nat, j: nat)
    requires GoodKeys(s, k) && i < s.needed && j < s.needed
    ensures Fits(SeededDemande(s, k, i), NewOffer(s, k, j)) <==> Mapped(s)
  {
    var o := NewOffer(s, k, j);
    assert o.beds.value as real == 3.0;
  }

  lemma SeededOffered(s: Settings, k: Keys, j: nat)
    requires GoodKeys(s, k) && !Rejected(s) && j < s.needed
    ensures NewOffer(s, k, j) in SeededData(s, k).offers && Offered(SeededData(s, k), NewOffer(s, k, j))
  {
    hide LinksBelow;
    var db := SeededData(s, k);
    assert db.offers[j] == NewOffer(s, k, j);
    assert db.listings[j] == Listing(k.listings[j], Some(AVAILABLE), false);
    assert db.listings[j] in db.listings;
  }

  lemma SeededMatches(s: Settings, k: Keys, i: nat, j: nat)
    requires GoodKeys(s, k) && !Rejected(s) && i < s.needed && j < s.needed
    ensures var db, d, o := SeededData(s, k), SeededDemande(s, k, i), NewOffer(s, k, j);
            && (FallbackMatch(db, d, o) <==> Mapped(s) && (Kept(s)[i] ==> i % s.locations == j % s.locations))
            && (StrictMatch(db, d, o) <==> Mapped(s) && Rest(s) <= i && i % s.locations == j % s.locations)
  {
    hide Fits, Offered, HasLocation, Linked, LinksBelow;
    SlicesFit(s);
    SeededHasLocation(s, k, i);
    SeededLinked(s, k, i, j);
    SeededFits(s, k, i, j);
    SeededOffered(s, k, j);
    var db := SeededData(s, k);
    assert db.demandes[i] == SeededDemande(s, k, i);
  }

  /** The keys of the first `n` offers at location `c`. */
  ghost function OffersAt(ids: seq<int>, n: nat, l: nat, c: nat): set<int>
    requires n <= |ids| && l > 0
  {
    set j | 0 <= j < n && j % l == c :: ids[j]
  }

  lemma {:induction false} OffersAtSize(ids: seq<int>, n: nat, l: nat, c: nat)
    requires n <= |ids| && l > 0 && Increasing(ids)
    ensures |OffersAt(ids, n, l, c)| == Hits(n, l, c)
  {
    if n > 0 {
      OffersAtSize(ids, n - 1, l, c);
      var before := OffersAt(ids, n - 1, l, c);
      if (n - 1) % l == c {
        assert ids[n - 1] !in before;
        assert OffersAt(ids, n, l, c) == before + {ids[n - 1]};
      } else {
        assert OffersAt(ids, n, l, c) == before;
      }
    }
  }

  lemma {:induction false} KeySetSize(ids: seq<int>, n: nat)
    requires n <= |ids| && Increasing(ids)
    ensures |set j | 0 <= j < n :: ids[j]| == n
  {
    if n > 0 {
      KeySetSize(ids, n - 1);
      var before := set j | 0 <= j < n - 1 :: ids[j];
      assert ids[n - 1] !in before;
      assert (set j | 0 <= j < n :: ids[j]) == before + {ids[n - 1]};
    }
  }

  /** How many offers a client gets. */
  function StrictShare(s: Settings, i: nat): nat
    requires s.locations > 0
  {
    if Mapped(s) && Rest(s) <= i then Hits(s.needed, s.locations, i % s.locations) else 0
  }

  function FallbackShare(s: Settings, i: nat): nat
    requires s.locations > 0 && i < s.needed
  {
    if !Mapped(s) then 0 else if Kept(s)[i] then Hits(s.needed, s.locations, i % s.locations) else s.needed
  }

  lemma ClientOffers(s: Settings, k: Keys, i: nat)
    requires GoodKeys(s, k) && !Rejected(s) && i < s.needed
    ensures StrictOffers(SeededData(s, k), k.clients[i]) ==
            if Mapped(s) && Rest(s) <= i then OffersAt(k.offers, s.needed, s.locations, i % s.locations) else {}
    ensures FallbackOffers(SeededData(s, k), k.clients[i]) ==
            if !Mapped(s) then {} else if Kept(s)[i] then OffersAt(k.offers, s.needed, s.locations, i % s.locations)
            else set j | 0 <= j < s.needed :: k.offers[j]
  {
    hide StrictMatch, FallbackMatch, LinksBelow, Mapped, Kept, Rest;
    var db, client := SeededData(s, k), k.clients[i];
    var d := SeededDemande(s, k, i);
    assert db.demandes[i] == d && d.clientId == client;
    forall e | e in db.demandes && e.clientId == client
      ensures e == d
    {
      var a :| 0 <= a < s.needed && db.demandes[a] == e;
      IncreasingInjective(k.clients, a, i);
    }
    forall j | 0 <= j < s.needed
      ensures NewOffer(s, k, j) in db.offers && NewOffer(s, k, j).id == k.offers[j]
      ensures FallbackMatch(db, d, NewOffer(s, k, j)) <==> Mapped(s) && (Kept(s)[i] ==> i % s.locations == j % s.locations)
      ensures StrictMatch(db, d, NewOffer(s, k, j)) <==> Mapped(s) && Rest(s) <= i && i % s.locations == j % s.locations
    {
      assert db.offers[j] == NewOffer(s, k, j);
      SeededMatches(s, k, i, j);
    }
    forall o | o in db.offers
      ensures exists j | 0 <= j < s.needed :: o == NewOffer(s, k, j) && o.id == k.offers[j]
    {
      var j :| 0 <= j < s.needed && db.offers[j] == o;
    }
  }

  /** The per-client counts, summed over the first `n` clients. */
  function Total(counts: map<int, nat>, clients: seq<int>, n: nat): nat
    requires n <= |clients|
  {
    if n == 0 then 0
    else Total(counts, clients, n - 1) + if clients[n - 1] in counts then counts[clients[n - 1]] else 0
  }

  lemma ClientCounts(s: Settings, k: Keys, i: nat)
    requires GoodKeys(s, k) && !Rejected(s) && i < s.needed
    ensures var counts, client := StrictCounts(SeededData(s, k)), k.clients[i];
            (if client in counts then counts[client] else 0) == StrictShare(s, i)
    ensures var counts, client := FallbackCounts(SeededData(s, k)), k.clients[i];
            (if client in counts then counts[client] else 0) == FallbackShare(s, i)
  {
    hide StrictCounts, FallbackCounts, StrictOffers, FallbackOffers, LinksBelow, Mapped, Kept, Rest, SeededData, OffersAt;
    var db := SeededData(s, k);
    StrictRefinement(db, k.clients[i]);
    FallbackRefinement(db, k.clients[i]);
    ClientOffers(s, k, i);
    OffersAtSize(k.offers, s.needed, s.locations, i % s.locations);
    KeySetSize(k.offers, s.needed);
  }

  /** The strict total over the first `n` clients. */
  function StrictSum(s: Settings, n: nat): int
    requires s.locations > 0 && Rest(s) >= 0
  {
    if n <= Rest(s) then 0 else Pairs(n, s.needed, s.locations) - Pairs(Rest(s), s.needed, s.locations)
  }

  /** The fallback total over the first `n` clients. */
  function FallbackSum(s: Settings, n: nat): int
    requires s.locations > 0 && 0 <= Slice1(s) <= Rest(s)
  {
    var wildcard, rest := Slice1(s), Rest(s);
    if n <= wildcard then Pairs(n, s.needed, s.locations)
    else
      Pairs(wildcard, s.needed, s.locations) +
      if n <= rest then (n - wildcard) * s.needed
      else (rest - wildcard) * s.needed + Pairs(n, s.needed, s.locations) - Pairs(rest, s.needed, s.locations)
  }

  lemma SumsNext(s: Settings, n: nat)
    requires !Rejected(s) && n < s.needed && Mapped(s) && 0 <= Slice1(s) <= Rest(s)
    ensures StrictSum(s, n + 1) == StrictSum(s, n) + StrictShare(s, n)
    ensures FallbackSum(s, n + 1) == FallbackSum(s, n) + FallbackShare(s, n)
  {
    hide Mapped;
    var wildcard, rest := Slice1(s), Rest(s);
    assert Pairs(n + 1, s.needed, s.locations) == Pairs(n, s.needed, s.locations) + Hits(s.needed, s.locations, n % s.locations);
    assert Kept(s)[n] <==> n < wildcard || rest <= n;
    assert (n + 1 - wildcard) * s.needed == (n - wildcard) * s.needed + s.needed;
  }

  lemma {:induction false} TotalsUpTo(s: Settings, k: Keys, n: nat)
    requires GoodKeys(s, k) && !Rejected(s) && 0 < s.needed && n <= s.needed && 0 <= Slice1(s) <= Rest(s)
    ensures Total(StrictCounts(SeededData(s, k)), k.clients, n) == if Mapped(s) then StrictSum(s, n) else 0
    ensures Total(FallbackCounts(SeededData(s, k)), k.clients, n) == if Mapped(s) then FallbackSum(s, n) else 0
  {
    hide StrictCounts, FallbackCounts, SeededData, Mapped, Kept, Rest, Slice1, StrictSum, FallbackSum;
    if n == 0 {
      SumsStart(s);
    } else {
      TotalsUpTo(s, k, n - 1);
      ClientCounts(s, k, n - 1);
      if Mapped(s) {
        SumsNext(s, n - 1);
      }
    }
  }

  lemma SumsStart(s: Settings)
    requires s.locations > 0 && 0 <= Slice1(s) <= Rest(s)
    ensures StrictSum(s, 0) == 0 && FallbackSum(s, 0) == 0
  {
  }

  /**
   * The totals of the two queries on the seeded data, in closed form: the strict query counts the pairs of the last
   * stretch; the fallback adds the pairs of the wildcard slice and every offer for each demande of the other two.
   */
  lemma SeededTotals(s: Settings, k: Keys, a: int, b: int, c: int)
    requires GoodKeys(s, k) && !Rejected(s) && s.needed > 0
    requires IsShare(s, s.wildcardPct, a) && IsShare(s, s.wilayaPct, b) && IsShare(s, s.nationwidePct, c)
    ensures a + b + c <= s.needed
    ensures var n, l, db := s.needed, s.locations, SeededData(s, k);
            var strict, fallback := Total(StrictCounts(db), k.clients, n), Total(FallbackCounts(db), k.clients, n);
            && Plain(s, k, db, a, b, c)
            && strict == (if Mapped(s) then Closed(n, n, l) - Closed(a + b + c, n, l) else 0)
            && fallback == (if Mapped(s) then strict + Closed(a, n, l) + (b + c) * n else 0)
  {
    hide StrictCounts, FallbackCounts, SeededData, Mapped, Rest, Slice1, Closed, Plain, Share;
    SlicesFit(s);
    SliceOrder(s);
    SliceSizes(s, a, b, c);
    SeededPlain(s, k, a, b, c);
    TotalsUpTo(s, k, s.needed);
    PairsClosed(s.needed, s.needed, s.locations);
    PairsClosed(Rest(s), s.needed, s.locations);
    PairsClosed(Slice1(s), s.needed, s.locations);
  }

  lemma SliceSizes(s: Settings, a: int, b: int, c: int)
    requires !Rejected(s) && s.needed > 0
    requires IsShare(s, s.wildcardPct, a) && IsShare(s, s.wilayaPct, b) && IsShare(s, s.nationwidePct, c)
    ensures a == Slice1(s) && Rest(s) == a + b + c
  {
    hide Share;
    ShareExact(s, s.wildcardPct, a);
    ShareExact(s, s.wilayaPct, b);
    ShareExact(s, s.nationwidePct, c);
  }

  lemma SliceOrder(s: Settings)
    requires 0 <= Slice1(s) <= Slice1(s) + Slice2(s) <= Rest(s)
    ensures 0 <= Slice1(s) <= Rest(s)
  {
  }
}
