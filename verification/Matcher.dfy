/**
 * The two counting queries of scripts/benchmark_matcher.py, first as SQL (joins on bags of rows, three-valued
 * conditions, COUNT DISTINCT per group), then as plain sets of offers, and the proof that they agree.
 */
module Matcher {
  import opened Bags
  import opened Outcomes
  import opened Sql

  /***** Rows *****/

  /** A numeric range; a missing bound is infinite. */
  datatype Range = EmptyRange | Span(lo: Option<real>, loIn: bool, hi: Option<real>, hiIn: bool)

  datatype Demande = Demande(
    id: int, clientId: int, typeId: Option<int>, actionId: Option<int>, wilayaId: Option<int>,
    elevator: Option<int>, accessibility: Option<int>, floorMin: Option<int>, floorMax: Option<int>,
    budget: Option<Range>, surface: Option<Range>, beds: Option<Range>, deleted: bool)

  datatype Offer = Offer(
    id: int, listingId: int, typeId: Option<int>, actionId: Option<int>, wilayaId: Option<int>,
    elevator: Option<int>, accessibility: Option<int>, floor: Option<int>,
    price: Option<Range>, surface: Option<real>, beds: Option<int>, available: bool, deleted: bool)

  datatype Listing = Listing(id: int, status: Option<string>, deleted: bool)

  /** A row of `demande_locations` or `offer_locations`. */
  datatype Link = Link(owner: int, location: int)

  datatype Data = Data(demandes: seq<Demande>, demandeLinks: seq<Link>, offerLinks: seq<Link>, offers: seq<Offer>, listings: seq<Listing>)

  const AVAILABLE := "available"

  /***** Scalar SQL *****/

  function Eq3<X(==)>(a: Option<X>, b: Option<X>): Tri {
    if a.None? || b.None? then Unknown else Truth(a.value == b.value)
  }

  function Coalesce(a: Option<int>, default: int): int {
    if a.Some? then a.value else default
  }

  /** The lower bound of one range does not lie beyond the upper bound of another. */
  predicate BoundsMeet(lo: Option<real>, loIn: bool, hi: Option<real>, hiIn: bool) {
    lo.None? || hi.None? || lo.value < hi.value || (lo.value == hi.value && loIn && hiIn)
  }

  /** Range values are stored normalised: a range without points is the empty range. */
  predicate Normal(r: Range) {
    r.Span? ==> BoundsMeet(r.lo, r.loIn, r.hi, r.hiIn)
  }

  predicate Within(x: real, r: Range) {
    && r.Span?
    && (r.lo.Some? ==> r.lo.value < x || (r.lo.value == x && r.loIn))
    && (r.hi.Some? ==> x < r.hi.value || (r.hi.value == x && r.hiIn))
  }

  /** `a && b` by comparing bounds. */
  predicate Overlaps(a: Range, b: Range) {
    && a.Span? && b.Span?
    && BoundsMeet(a.lo, a.loIn, b.hi, b.hiIn) && BoundsMeet(b.lo, b.loIn, a.hi, a.hiIn)
  }

  function Overlap3(a: Option<Range>, b: Option<Range>): Tri {
    if a.None? || b.None? then Unknown else Truth(Overlaps(a.value, b.value))
  }

  function Within3(x: Option<real>, r: Option<Range>): Tri {
    if x.None? || r.None? then Unknown else Truth(Within(x.value, r.value))
  }

  function RealOf(x: Option<int>): Option<real> {
    if x.None? then None else Some(x.value as real)
  }

  /** `CASE WHEN (action_id = 1) THEN 3 WHEN (action_id = 2) THEN 2 ELSE NULL END` */
  function OfferAction(actionId: Option<int>): Option<int> {
    if Eq3(actionId, Some(1)) == Yes then Some(3) else if Eq3(actionId, Some(2)) == Yes then Some(2) else None
  }

  /** The WHERE conditions the two queries share. */
  function CommonWhere(d: Demande, o: Offer): Tri {
    And3(Truth(!d.deleted),
    And3(Or3(Truth(d.elevator.None?), Eq3(o.elevator, Some(1))),
    And3(Or3(Truth(d.accessibility.None?), Eq3(o.accessibility, Some(1))),
    And3(Eq3(o.actionId, OfferAction(d.actionId)),
    And3(Overlap3(o.price, d.budget),
    And3(Within3(o.surface, d.surface),
    And3(Within3(RealOf(o.beds), d.beds),
         Or3(And3(Truth(d.floorMin.None?), Truth(d.floorMax.None?)),
             And3(Truth(Coalesce(o.floor, 0) >= Coalesce(d.floorMin, 0)),
                  Truth(Coalesce(o.floor, 0) <= Coalesce(d.floorMax, 100))))))))))) 
  }

  function OfferOpen(o: Offer): Tri {
    And3(Truth(o.available), Truth(!o.deleted))
  }

  function ListingOn(o: Offer, l: Listing): Tri {
    And3(Truth(l.id == o.listingId), And3(Eq3(l.status, Some(AVAILABLE)), Truth(!l.deleted)))
  }

  /***** The strict query *****/

  type StrictRow = ((((Demande, Link), Link), Offer), Listing)

  function StrictRows(db: Data): seq<StrictRow> {
    var j1 := InnerJoin(db.demandes, db.demandeLinks, (d: Demande, dl: Link) => Truth(d.id == dl.owner));
    var j2 := InnerJoin(j1, db.offerLinks, (r: (Demande, Link), ol: Link) => Truth(r.1.location == ol.location));
    var j3 := InnerJoin(j2, db.offers,
                        (r: ((Demande, Link), Link), o: Offer) => And3(Truth(r.1.owner == o.id), OfferOpen(o)));
    var j4 := InnerJoin(j3, db.listings, (r: (((Demande, Link), Link), Offer), l: Listing) => ListingOn(r.1, l));
    Where(j4, (r: StrictRow) => And3(CommonWhere(r.0.0.0.0, r.0.1), Eq3(r.0.1.typeId, r.0.0.0.0.typeId)))
  }

  /***** The fallback query *****/

  datatype Scope = Loc | Wilaya | Nationwide

  function ScopeOf(db: Data, d: Demande): Scope {
    if exists dl | dl in db.demandeLinks :: Truth(dl.owner == d.id) == Yes then Loc
    else if And3(Truth(d.wilayaId.Some?), Not3(Eq3(d.wilayaId, Some(0)))) == Yes then Wilaya
    else Nationwide
  }

  /** A row of `demande_scope`. */
  datatype Scoped = Scoped(d: Demande, scope: Scope)

  function DemandeScope(db: Data): seq<Scoped> {
    seq(|db.demandes|, i requires 0 <= i < |db.demandes| => Scoped(db.demandes[i], ScopeOf(db, db.demandes[i])))
  }

  type Reach = ((Scoped, Option<Link>), Option<Link>)
  type FallbackRow = ((Reach, Offer), Listing)

  function LocationOf(dl: Option<Link>): Option<int> {
    if dl.Some? then Some(dl.value.location) else None
  }

  function OwnerOf(ol: Option<Link>): Option<int> {
    if ol.Some? then Some(ol.value.owner) else None
  }

  function OfferOn(r: Reach, o: Offer): Tri {
    var (ds, ol) := (r.0.0, r.1);
    And3(Or3(And3(Truth(ds.scope == Loc), Eq3(OwnerOf(ol), Some(o.id))),
         Or3(And3(Truth(ds.scope == Wilaya), Eq3(o.wilayaId, ds.d.wilayaId)),
             Truth(ds.scope == Nationwide))),
         OfferOpen(o))
  }

  function FallbackRows(db: Data): seq<FallbackRow> {
    var j1 := LeftJoin(DemandeScope(db), db.demandeLinks,
                       (ds: Scoped, dl: Link) => And3(Truth(ds.scope == Loc), Truth(dl.owner == ds.d.id)));
    var j2 := LeftJoin(j1, db.offerLinks,
                       (r: (Scoped, Option<Link>), ol: Link) =>
                         And3(Truth(r.0.scope == Loc), Eq3(LocationOf(r.1), Some(ol.location))));
    var j3 := InnerJoin(j2, db.offers, (r: Reach, o: Offer) => OfferOn(r, o));
    var j4 := InnerJoin(j3, db.listings, (r: (Reach, Offer), l: Listing) => ListingOn(r.1, l));
    Where(j4, (r: FallbackRow) =>
                var (d, o) := (r.0.0.0.0.d, r.0.1);
                And3(CommonWhere(d, o), Or3(Truth(d.typeId.None?), Eq3(o.typeId, d.typeId))))
  }

  /***** Grouping *****/

  /** `COUNT(DISTINCT second) ... GROUP BY first` */
  function CountDistinct(rows: seq<(int, int)>): map<int, nat> {
    map row | row in rows :: row.0 := |Group(rows, row.0)|
  }

  function Group(rows: seq<(int, int)>, key: int): set<int> {
    set row | row in rows && row.0 == key :: row.1
  }

  function StrictPairs(db: Data): seq<(int, int)> {
    var rows := StrictRows(db);
    seq(|rows|, i requires 0 <= i < |rows| => (rows[i].0.0.0.0.clientId, rows[i].0.1.id))
  }

  function FallbackPairs(db: Data): seq<(int, int)> {
    var rows := FallbackRows(db);
    seq(|rows|, i requires 0 <= i < |rows| => (rows[i].0.0.0.0.d.clientId, rows[i].0.1.id))
  }

  function StrictCounts(db: Data): map<int, nat> {
    CountDistinct(StrictPairs(db))
  }

  function FallbackCounts(db: Data): map<int, nat> {
    CountDistinct(FallbackPairs(db))
  }

  /***** The plain specification *****/

  /** The offer can be shown at all. */
  ghost predicate Offered(db: Data, o: Offer) {
    o in db.offers && o.available && !o.deleted &&
    exists l | l in db.listings :: l.id == o.listingId && l.status == Some("available") && !l.deleted
  }

  ghost predicate CommonPoint(a: Range, b: Range) {
    exists x :: Within(x, a) && Within(x, b)
  }

  /** The offer has what the demande asks for, types and places apart. */
  ghost predicate Fits(d: Demande, o: Offer) {
    && (d.elevator.Some? ==> o.elevator == Some(1))
    && (d.accessibility.Some? ==> o.accessibility == Some(1))
    && ((d.actionId == Some(1) && o.actionId == Some(3)) || (d.actionId == Some(2) && o.actionId == Some(2)))
    && d.budget.Some? && o.price.Some? && Overlaps(o.price.value, d.budget.value)
    && d.surface.Some? && o.surface.Some? && Within(o.surface.value, d.surface.value)
    && d.beds.Some? && o.beds.Some? && Within(o.beds.value as real, d.beds.value)
    && (d.floorMin.Some? || d.floorMax.Some? ==> FloorFits(d, o))
  }

  /** The floor, or the ground floor if none is given, lies in the wanted range, by default from 0 to 100. */
  ghost predicate FloorFits(d: Demande, o: Offer) {
    match (o.floor, d.floorMin, d.floorMax)
    case (Some(floor), Some(lowest), Some(highest)) => lowest <= floor <= highest
    case (Some(floor), Some(lowest), None) => lowest <= floor <= 100
    case (Some(floor), None, Some(highest)) => 0 <= floor <= highest
    case (Some(floor), None, None) => 0 <= floor <= 100
    case (None, Some(lowest), Some(highest)) => lowest <= 0 <= highest
    case (None, Some(lowest), None) => lowest <= 0
    case (None, None, Some(highest)) => 0 <= highest
    case (None, None, None) => true
  }

  ghost predicate HasLocation(db: Data, d: Demande) {
    exists dl | dl in db.demandeLinks :: dl.owner == d.id
  }

  /** Demande and offer share a location. */
  ghost predicate Linked(db: Data, d: Demande, o: Offer) {
    exists dl, ol | dl in db.demandeLinks && ol in db.offerLinks ::
      dl.owner == d.id && ol.owner == o.id && dl.location == ol.location
  }

  /** The place rule of the fallback: by location if the demande has any, else by wilaya if it has one, else anywhere. */
  ghost predicate Reaches(db: Data, d: Demande, o: Offer) {
    if HasLocation(db, d) then Linked(db, d, o)
    else if d.wilayaId.Some? && d.wilayaId != Some(0) then o.wilayaId == d.wilayaId
    else true
  }

  ghost predicate StrictMatch(db: Data, d: Demande, o: Offer) {
    d in db.demandes && !d.deleted && Offered(db, o) && Fits(d, o) && Linked(db, d, o) &&
    d.typeId.Some? && o.typeId == d.typeId
  }

  ghost predicate FallbackMatch(db: Data, d: Demande, o: Offer) {
    d in db.demandes && !d.deleted && Offered(db, o) && Fits(d, o) && Reaches(db, d, o) &&
    (d.typeId.Some? ==> o.typeId == d.typeId)
  }

  /** The offers some demande of the client matches. */
  ghost function StrictOffers(db: Data, client: int): set<int> {
    set d, o | d in db.demandes && o in db.offers && d.clientId == client && StrictMatch(db, d, o) :: o.id
  }

  ghost function FallbackOffers(db: Data, client: int): set<int> {
    set d, o | d in db.demandes && o in db.offers && d.clientId == client && FallbackMatch(db, d, o) :: o.id
  }

  /***** Agreement *****/

  /** On normalised ranges, comparing bounds finds exactly the ranges with a common point. */
  lemma OverlapIsCommonPoint(a: Range, b: Range)
    requires Normal(a) && Normal(b)
    ensures Overlaps(a, b) <==> CommonPoint(a, b)
  {
    if Overlaps(a, b) {
      var lo := if a.lo.None? then b.lo else if b.lo.None? || b.lo.value < a.lo.value then a.lo else b.lo;
      var hi := if a.hi.None? then b.hi else if b.hi.None? || a.hi.value < b.hi.value then a.hi else b.hi;
      var x := if lo.Some? && hi.Some? then (lo.value + hi.value) / 2.0
               else if lo.Some? then lo.value + 1.0 else if hi.Some? then hi.value - 1.0 else 0.0;
      assert Within(x, a) && Within(x, b);
    }
  }

  lemma WhereIsFits(d: Demande, o: Offer)
    ensures CommonWhere(d, o) == Yes <==> !d.deleted && Fits(d, o)
  {
  }

  lemma ListingIsOffered(o: Offer, l: Listing)
    ensures ListingOn(o, l) == Yes <==> l.id == o.listingId && l.status == Some("available") && !l.deleted
  {
  }

  lemma ScopeIsPlace(db: Data, d: Demande)
    ensures ScopeOf(db, d) == Loc <==> HasLocation(db, d)
    ensures ScopeOf(db, d) == Wilaya <==> !HasLocation(db, d) && d.wilayaId.Some? && d.wilayaId != Some(0)
  {
    forall dl | dl in db.demandeLinks
      ensures Truth(dl.owner == d.id) == Yes <==> dl.owner == d.id
    {
    }
  }

  lemma InStrictRows(db: Data, r: StrictRow)
    ensures r in StrictRows(db) <==>
            var d, dl, ol, o, l := r.0.0.0.0, r.0.0.0.1, r.0.0.1, r.0.1, r.1;
            && d in db.demandes && dl in db.demandeLinks && ol in db.offerLinks && o in db.offers && l in db.listings
            && d.id == dl.owner && dl.location == ol.location && ol.owner == o.id
            && OfferOpen(o) == Yes && ListingOn(o, l) == Yes
            && CommonWhere(d, o) == Yes && Eq3(o.typeId, d.typeId) == Yes
  {
    hide CommonWhere, ListingOn, OfferOpen;
    var on1 := (d: Demande, dl: Link) => Truth(d.id == dl.owner);
    var on2 := (r: (Demande, Link), ol: Link) => Truth(r.1.location == ol.location);
    var on3 := (r: ((Demande, Link), Link), o: Offer) => And3(Truth(r.1.owner == o.id), OfferOpen(o));
    var on4 := (r: (((Demande, Link), Link), Offer), l: Listing) => ListingOn(r.1, l);
    var j1 := InnerJoin(db.demandes, db.demandeLinks, on1);
    var j2 := InnerJoin(j1, db.offerLinks, on2);
    var j3 := InnerJoin(j2, db.offers, on3);
    var j4 := InnerJoin(j3, db.listings, on4);
    InWhere(j4, (r: StrictRow) => And3(CommonWhere(r.0.0.0.0, r.0.1), Eq3(r.0.1.typeId, r.0.0.0.0.typeId)), r);
    InInnerJoin(j3, db.listings, on4, r);
    InInnerJoin(j2, db.offers, on3, r.0);
    InInnerJoin(j1, db.offerLinks, on2, r.0.0);
    InInnerJoin(db.demandes, db.demandeLinks, on1, r.0.0.0);
  }

  lemma InScope(db: Data, ds: Scoped)
    ensures ds in DemandeScope(db) <==> ds.d in db.demandes && ds.scope == ScopeOf(db, ds.d)
  {
    var rows := DemandeScope(db);
    if ds.d in db.demandes && ds.scope == ScopeOf(db, ds.d) {
      var i :| 0 <= i < |db.demandes| && db.demandes[i] == ds.d;
      assert rows[i] == ds;
    }
  }

  predicate JoinsDemande(ds: Scoped, dl: Link) {
    ds.scope == Loc && dl.owner == ds.d.id
  }

  predicate JoinsOffer(ds: Scoped, dl: Option<Link>, ol: Link) {
    ds.scope == Loc && dl.Some? && dl.value.location == ol.location
  }

  /** The link a row of the first LEFT JOIN carries: a partner of the demande, or none if there is none. */
  ghost predicate DemandeLink(db: Data, ds: Scoped, dl: Option<Link>) {
    match dl
    case Some(y) => y in db.demandeLinks && JoinsDemande(ds, y)
    case None => forall y | y in db.demandeLinks :: !JoinsDemande(ds, y)
  }

  /** The same for the second LEFT JOIN. */
  ghost predicate OfferLink(db: Data, ds: Scoped, dl: Option<Link>, ol: Option<Link>) {
    match ol
    case Some(y) => y in db.offerLinks && JoinsOffer(ds, dl, y)
    case None => forall y | y in db.offerLinks :: !JoinsOffer(ds, dl, y)
  }

  lemma InFallbackRows(db: Data, r: FallbackRow)
    ensures r in FallbackRows(db) <==>
            var ds, dl, ol, o, l := r.0.0.0.0, r.0.0.0.1, r.0.0.1, r.0.1, r.1;
            && ds.d in db.demandes && ds.scope == ScopeOf(db, ds.d)
            && DemandeLink(db, ds, dl) && OfferLink(db, ds, dl, ol)
            && o in db.offers && l in db.listings && OfferOn(r.0.0, o) == Yes && ListingOn(o, l) == Yes
            && CommonWhere(ds.d, o) == Yes && Or3(Truth(ds.d.typeId.None?), Eq3(o.typeId, ds.d.typeId)) == Yes
  {
    hide CommonWhere, ListingOn, OfferOn, ScopeOf, DemandeScope, InnerJoin, Where, LeftJoin;
    var on1 := (ds: Scoped, dl: Link) => And3(Truth(ds.scope == Loc), Truth(dl.owner == ds.d.id));
    var on2 := (r: (Scoped, Option<Link>), ol: Link) => And3(Truth(r.0.scope == Loc), Eq3(LocationOf(r.1), Some(ol.location)));
    var on3 := (r: Reach, o: Offer) => OfferOn(r, o);
    var on4 := (r: (Reach, Offer), l: Listing) => ListingOn(r.1, l);
    var j1 := LeftJoin(DemandeScope(db), db.demandeLinks, on1);
    var j2 := LeftJoin(j1, db.offerLinks, on2);
    var j3 := InnerJoin(j2, db.offers, on3);
    var j4 := InnerJoin(j3, db.listings, on4);
    InWhere(j4, (r: FallbackRow) =>
                  var (d, o) := (r.0.0.0.0.d, r.0.1);
                  And3(CommonWhere(d, o), Or3(Truth(d.typeId.None?), Eq3(o.typeId, d.typeId))), r);
    InInnerJoin(j3, db.listings, on4, r);
    InInnerJoin(j2, db.offers, on3, r.0);
    InLeftJoin(j1, db.offerLinks, on2, r.0.0);
    InLeftJoin(DemandeScope(db), db.demandeLinks, on1, r.0.0.0);
    InScope(db, r.0.0.0.0);
    forall ds: Scoped, y
      ensures on1(ds, y) == Yes <==> JoinsDemande(ds, y)
    {
      assert on1(ds, y) == And3(Truth(ds.scope == Loc), Truth(y.owner == ds.d.id));
    }
    forall ds: Scoped, dl, y
      ensures on2((ds, dl), y) == Yes <==> JoinsOffer(ds, dl, y)
    {
    }
  }

  /** A joined row of the strict query is a strict match. */
  lemma StrictRowMatches(db: Data, r: StrictRow)
    requires r in StrictRows(db)
    ensures r.0.1 in db.offers && StrictMatch(db, r.0.0.0.0, r.0.1)
  {
    hide CommonWhere, Fits, StrictRows;
    var d, o, l := r.0.0.0.0, r.0.1, r.1;
    InStrictRows(db, r);
    WhereIsFits(d, o);
    ListingIsOffered(o, l);
  }

  lemma StrictMatchHasRow(db: Data, d: Demande, o: Offer) returns (r: StrictRow)
    requires StrictMatch(db, d, o)
    ensures r in StrictRows(db) && r.0.0.0.0 == d && r.0.1 == o
  {
    hide CommonWhere, Fits, StrictRows;
    var dl, ol :| dl in db.demandeLinks && ol in db.offerLinks && dl.owner == d.id && ol.owner == o.id && dl.location == ol.location;
    var l :| l in db.listings && l.id == o.listingId && l.status == Some("available") && !l.deleted;
    r := ((((d, dl), ol), o), l);
    WhereIsFits(d, o);
    ListingIsOffered(o, l);
    InStrictRows(db, r);
  }

  /** A joined row of the fallback query is a fallback match, whatever links the LEFT JOINs carried along. */
  lemma FallbackRowMatches(db: Data, r: FallbackRow)
    requires r in FallbackRows(db)
    ensures r.0.1 in db.offers && FallbackMatch(db, r.0.0.0.0.d, r.0.1)
  {
    hide CommonWhere, Fits, FallbackRows, ScopeOf;
    var ds, dl, ol, o, l := r.0.0.0.0, r.0.0.0.1, r.0.0.1, r.0.1, r.1;
    InFallbackRows(db, r);
    WhereIsFits(ds.d, o);
    ListingIsOffered(o, l);
    ScopeIsPlace(db, ds.d);
    if ds.scope == Loc {
      assert ol.Some? && ol.value.owner == o.id && dl.Some?;
      assert Linked(db, ds.d, o);
    }
  }

  lemma FallbackMatchHasRow(db: Data, d: Demande, o: Offer) returns (r: FallbackRow)
    requires FallbackMatch(db, d, o)
    ensures r in FallbackRows(db) && r.0.0.0.0.d == d && r.0.1 == o
  {
    hide CommonWhere, Fits, FallbackRows, ScopeOf;
    var l :| l in db.listings && l.id == o.listingId && l.status == Some("available") && !l.deleted;
    var ds := Scoped(d, ScopeOf(db, d));
    ScopeIsPlace(db, d);
    var dl: Option<Link>, ol: Option<Link> := None, None;
    if ds.scope == Loc {
      var y, z :| y in db.demandeLinks && z in db.offerLinks && y.owner == d.id && z.owner == o.id && y.location == z.location;
      dl, ol := Some(y), Some(z);
    }
    r := ((((ds, dl), ol), o), l);
    WhereIsFits(d, o);
    ListingIsOffered(o, l);
    InFallbackRows(db, r);
  }

  lemma StrictGroup(db: Data, client: int)
    ensures Group(StrictPairs(db), client) == StrictOffers(db, client)
  {
    hide StrictRows, StrictMatch;
    var rows, pairs := StrictRows(db), StrictPairs(db);
    forall id | id in Group(pairs, client)
      ensures id in StrictOffers(db, client)
    {
      var i :| 0 <= i < |pairs| && pairs[i] == (client, id);
      StrictRowMatches(db, rows[i]);
      StrictMatchIn(db, rows[i].0.0.0.0, rows[i].0.1);
    }
    forall id | id in StrictOffers(db, client)
      ensures id in Group(pairs, client)
    {
      var d, o :| d in db.demandes && o in db.offers && d.clientId == client && StrictMatch(db, d, o) && o.id == id;
      var r := StrictMatchHasRow(db, d, o);
      var i :| 0 <= i < |rows| && rows[i] == r;
      assert pairs[i] == (client, id);
    }
  }

  lemma StrictMatchIn(db: Data, d: Demande, o: Offer)
    requires StrictMatch(db, d, o)
    ensures d in db.demandes && o in db.offers
  {
  }

  lemma FallbackMatchIn(db: Data, d: Demande, o: Offer)
    requires FallbackMatch(db, d, o)
    ensures d in db.demandes && o in db.offers
  {
  }

  lemma FallbackGroup(db: Data, client: int)
    ensures Group(FallbackPairs(db), client) == FallbackOffers(db, client)
  {
    hide FallbackRows, FallbackMatch;
    var rows, pairs := FallbackRows(db), FallbackPairs(db);
    forall id | id in Group(pairs, client)
      ensures id in FallbackOffers(db, client)
    {
      var i :| 0 <= i < |pairs| && pairs[i] == (client, id);
      FallbackRowMatches(db, rows[i]);
      FallbackMatchIn(db, rows[i].0.0.0.0.d, rows[i].0.1);
    }
    forall id | id in FallbackOffers(db, client)
      ensures id in Group(pairs, client)
    {
      var d, o :| d in db.demandes && o in db.offers && d.clientId == client && FallbackMatch(db, d, o) && o.id == id;
      var r := FallbackMatchHasRow(db, d, o);
      var i :| 0 <= i < |rows| && rows[i] == r;
      assert pairs[i] == (client, id);
    }
  }

  lemma CountIsGroup(rows: seq<(int, int)>, key: int)
    ensures key in CountDistinct(rows) <==> Group(rows, key) != {}
    ensures key in CountDistinct(rows) ==> CountDistinct(rows)[key] == |Group(rows, key)|
  {
    if id :| id in Group(rows, key) {
      var row :| row in rows && row.0 == key && row.1 == id;
      assert row.0 in CountDistinct(rows);
    }
    if key in CountDistinct(rows) {
      var row :| row in rows && row.0 == key;
      assert row.1 in Group(rows, key);
    }
  }

  /** The strict query counts, per client, the offers that strictly match one of its demandes. */
  lemma StrictRefinement(db: Data, client: int)
    ensures client in StrictCounts(db) <==> StrictOffers(db, client) != {}
    ensures client in StrictCounts(db) ==> StrictCounts(db)[client] == |StrictOffers(db, client)|
  {
    hide StrictPairs, StrictOffers;
    StrictGroup(db, client);
    CountIsGroup(StrictPairs(db), client);
  }

  /**
   * The fallback query counts, per client, the eligible offers, each once: several locations, several demandes and
   * the padding of the LEFT JOINs never change the count.
   */
  lemma FallbackRefinement(db: Data, client: int)
    ensures client in FallbackCounts(db) <==> FallbackOffers(db, client) != {}
    ensures client in FallbackCounts(db) ==> FallbackCounts(db)[client] == |FallbackOffers(db, client)|
  {
    hide FallbackPairs, FallbackOffers;
    FallbackGroup(db, client);
    CountIsGroup(FallbackPairs(db), client);
  }

  /***** The two queries compared *****/

  /** The demande is widened by the fallback: it has no location, or any type will do. */
  ghost predicate Widened(db: Data, d: Demande) {
    !HasLocation(db, d) || d.typeId.None?
  }

  ghost function WidenedOffers(db: Data, client: int): set<int> {
    set d, o | d in db.demandes && o in db.offers && d.clientId == client && Widened(db, d) && FallbackMatch(db, d, o) :: o.id
  }

  /** Demande by demande, a strict match is a fallback match of a demande that is not widened, and conversely. */
  lemma StrictIsUnwidened(db: Data, d: Demande, o: Offer)
    ensures StrictMatch(db, d, o) <==> FallbackMatch(db, d, o) && !Widened(db, d)
  {
    hide Fits, Offered;
  }

  /** The fallback finds the strict query's offers, and those of the widened demandes; nothing else. */
  lemma FallbackIsStrictAndWidened(db: Data, client: int)
    ensures FallbackOffers(db, client) == StrictOffers(db, client) + WidenedOffers(db, client)
    ensures StrictOffers(db, client) <= FallbackOffers(db, client)
  {
    hide StrictMatch, FallbackMatch, Widened;
    forall d, o
      ensures StrictMatch(db, d, o) <==> FallbackMatch(db, d, o) && !Widened(db, d)
    {
      StrictIsUnwidened(db, d, o);
    }
  }

  /** So the two counts agree for every client whose live demandes all have a location and a type. */
  lemma CountsAgree(db: Data, client: int)
    requires forall d | d in db.demandes && d.clientId == client && !d.deleted :: HasLocation(db, d) && d.typeId.Some?
    ensures client in StrictCounts(db) <==> client in FallbackCounts(db)
    ensures client in StrictCounts(db) ==> StrictCounts(db)[client] == FallbackCounts(db)[client]
  {
    hide StrictCounts, FallbackCounts, StrictOffers;
    StrictRefinement(db, client);
    FallbackRefinement(db, client);
    FallbackIsStrictAndWidened(db, client);
    assert WidenedOffers(db, client) == {};
  }

  /** A strict count is never above the fallback's. */
  lemma StrictAtMostFallback(db: Data, client: int)
    requires client in StrictCounts(db)
    ensures client in FallbackCounts(db) && StrictCounts(db)[client] <= FallbackCounts(db)[client]
  {
    hide StrictCounts, FallbackCounts, StrictOffers, FallbackOffers;
    StrictRefinement(db, client);
    FallbackRefinement(db, client);
    FallbackIsStrictAndWidened(db, client);
    SubsetSize(StrictOffers(db, client), FallbackOffers(db, client));
  }

  lemma SubsetSize(a: set<int>, b: set<int>)
    requires a <= b
    ensures |a| <= |b|
  {
    assert b == a + (b - a);
  }
}
