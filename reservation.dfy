/**
 * Reservations (Projeto/models/reservation.py): a client's booking of items for a
 * time interval, with the life cycle
 *
 *   Pending -> Confirmed -> Completed
 *      |          |
 *      v          v
 *   Cancelled  Cancelled
 *
 * Adding an item claims it (its availability flag goes to false); removing it,
 * cancelling or completing the reservation releases it again.
 */
module Reservations {
  import opened Wrappers
  import Json
  import Repository
  import SportsItems
  import Users

  // ==================== states ====================

  /** The state string; a stored string outside the four known ones is kept as it is. */
  datatype State = Pending | Confirmed | Cancelled | Completed | Unrecognised(name: string) {
    /** A reservation in this state holds its items. */
    predicate Active() {
      Pending? || Confirmed?
    }
  }

  function StateName(s: State): string {
    match s
    case Pending => "Pending"
    case Confirmed => "Confirmed"
    case Cancelled => "Cancelled"
    case Completed => "Completed"
    case Unrecognised(name) => name
  }

  /** Reading a state string back: the string is kept, whatever it is. */
  function ParseState(name: string): (s: State)
    ensures StateName(s) == name
    ensures s.Unrecognised? <==> name !in {"Pending", "Confirmed", "Cancelled", "Completed"}
  {
    if name == "Pending" then Pending
    else if name == "Confirmed" then Confirmed
    else if name == "Cancelled" then Cancelled
    else if name == "Completed" then Completed
    else Unrecognised(name)
  }

  /** A state that is not an unrecognised copy of one of the four known names. */
  predicate WellFormed(s: State) {
    s.Unrecognised? ==> s.name !in {"Pending", "Confirmed", "Cancelled", "Completed"}
  }

  // ==================== records and the reservations file ====================

  /** The stored form of a reservation; dates are seconds since an epoch. */
  datatype ReservationRecord = ReservationRecord(
    id: int,
    clientId: int,
    start: int,
    end: int,
    itemIds: seq<int>,
    totalValue: real,
    state: State)

  function Id(r: ReservationRecord): int { r.id }

  /** Reservation ids start at 101. */
  const FirstId: int := 101

  /** The reservations file: the ordered list of reservation records. */
  class ReservationFile {
    var rows: seq<ReservationRecord>

    constructor (rows0: seq<ReservationRecord>)
      ensures rows == rows0
    {
      rows := rows0;
    }
  }

  /** `to_dict`: one key per field, the state written by name. */
  function ToDict(r: ReservationRecord): (d: Json.Object)
    ensures d.Keys == {"id", "client_id", "start_date", "end_date", "item_ids", "total_value", "state"}
    ensures d["id"] == Json.Int(r.id) && d["client_id"] == Json.Int(r.clientId)
    ensures d["state"] == Json.Str(StateName(r.state))
  {
    map[
      "id" := Json.Int(r.id),
      "client_id" := Json.Int(r.clientId),
      "start_date" := Json.Int(r.start),
      "end_date" := Json.Int(r.end),
      "item_ids" := Json.IntList(r.itemIds),
      "total_value" := Json.Num(r.totalValue),
      "state" := Json.Str(StateName(r.state))]
  }

  /**
   * `from_dict`: id, client and both dates are required; the item list defaults to
   * empty (a stored null also reads as empty), the total to 0.0 and the state to "Pending".
   */
  function FromDict(d: Json.Object): (r: Result<ReservationRecord, Json.DecodeError>)
    ensures r.Success? && "item_ids" !in d ==> r.value.itemIds == []
    ensures r.Success? && "total_value" !in d ==> r.value.totalValue == 0.0
    ensures r.Success? && "state" !in d ==> r.value.state == Pending
    ensures r.Success? ==> WellFormed(r.value.state)
  {
    var id :- Json.GetInt(d, "id");
    var clientId :- Json.GetInt(d, "client_id");
    var start :- Json.GetInt(d, "start_date");
    var end :- Json.GetInt(d, "end_date");
    var itemIds :- if "item_ids" in d && d["item_ids"] == Json.Null then Success([])
                   else Json.GetIntsOr(d, "item_ids", []);
    var total :- Json.GetNumOr(d, "total_value", 0.0);
    var state :- Json.GetStrOr(d, "state", "Pending");
    Success(ReservationRecord(id, clientId, start, end, itemIds, total, ParseState(state)))
  }

  /** `from_dict(to_dict(r))` reproduces id, client, dates, item list, total and state. */
  lemma FromDictToDict(r: ReservationRecord)
    requires WellFormed(r.state)
    ensures FromDict(ToDict(r)) == Success(r)
  {
    Json.GetIntsOrIntList(ToDict(r), "item_ids", r.itemIds, []);
  }

  /** `get_next_id`: 101 for an empty file, otherwise the largest id plus one. */
  function NextId(rows: seq<ReservationRecord>): (n: int)
    ensures rows == [] ==> n == FirstId
    ensures forall k :: 0 <= k < |rows| ==> rows[k].id < n
    ensures rows != [] ==> exists k :: 0 <= k < |rows| && rows[k].id == n - 1
  {
    Repository.NextId(rows, Id, FirstId)
  }

  /** `find_by_id`: the first reservation with that id, or None. */
  function FindById(rows: seq<ReservationRecord>, id: int): (r: Option<ReservationRecord>)
    ensures r.Some? ==> r.value.id == id && r.value in rows
    ensures r.None? <==> forall k :: 0 <= k < |rows| ==> rows[k].id != id
    ensures r.Some? ==> exists i :: 0 <= i < |rows| && rows[i] == r.value
                          && forall j :: 0 <= j < i ==> rows[j].id != id
  {
    Repository.Find(rows, Id, id)
  }

  function OfClient(clientId: Option<int>): ReservationRecord -> bool {
    (r: ReservationRecord) => Some(r.clientId) == clientId
  }

  function InState(state: string): ReservationRecord -> bool {
    (r: ReservationRecord) => StateName(r.state) == state
  }

  /**
   * `get_all(client_id, state)`: the client filter applies when `client_id` is
   * truthy, then the state filter when `state` is a non-empty string.
   */
  function GetAll(rows: seq<ReservationRecord>, clientId: Option<int>, state: string): (r: seq<ReservationRecord>)
    ensures forall k :: 0 <= k < |r| ==> Truthy(clientId) ==> Some(r[k].clientId) == clientId
    ensures forall k :: 0 <= k < |r| ==> state != "" ==> StateName(r[k].state) == state
    ensures !Truthy(clientId) && state == "" ==> r == rows
  {
    var byClient := if Truthy(clientId) then Repository.Filter(rows, OfClient(clientId)) else rows;
    if state != "" then Repository.Filter(byClient, InState(state)) else byClient
  }

  /** A reservation is listed exactly when it is stored and passes both requested filters. */
  lemma GetAllMembership(rows: seq<ReservationRecord>, clientId: Option<int>, state: string, x: ReservationRecord)
    ensures x in GetAll(rows, clientId, state)
        <==> x in rows && (Truthy(clientId) ==> Some(x.clientId) == clientId)
                       && (state != "" ==> StateName(x.state) == state)
  {
    Repository.FilterMembership(rows, OfClient(clientId), x);
    var byClient := if Truthy(clientId) then Repository.Filter(rows, OfClient(clientId)) else rows;
    Repository.FilterMembership(byClient, InState(state), x);
  }

  /** Listing works piecewise over the file, so the result keeps the file's order. */
  lemma GetAllConcat(a: seq<ReservationRecord>, b: seq<ReservationRecord>, clientId: Option<int>, state: string)
    ensures GetAll(a + b, clientId, state) == GetAll(a, clientId, state) + GetAll(b, clientId, state)
  {
    Repository.FilterConcat(a, b, OfClient(clientId));
    var ca := if Truthy(clientId) then Repository.Filter(a, OfClient(clientId)) else a;
    var cb := if Truthy(clientId) then Repository.Filter(b, OfClient(clientId)) else b;
    Repository.FilterConcat(ca, cb, InState(state));
  }

  /** `find_by_client(c)`: `get_all(client_id=c)`. */
  function FindByClient(rows: seq<ReservationRecord>, clientId: int): (r: seq<ReservationRecord>)
    ensures clientId != 0 ==> forall k :: 0 <= k < |r| ==> r[k].clientId == clientId
    ensures forall x :: x in r <==> x in rows && (clientId != 0 ==> x.clientId == clientId)
  {
    assert forall x :: x in GetAll(rows, Some(clientId), "") <==> x in rows && (clientId != 0 ==> x.clientId == clientId) by {
      forall x ensures x in GetAll(rows, Some(clientId), "") <==> x in rows && (clientId != 0 ==> x.clientId == clientId) {
        GetAllMembership(rows, Some(clientId), "", x);
      }
    }
    GetAll(rows, Some(clientId), "")
  }

  /** The `client` property: the user with the reservation's client id, or None. */
  function ClientOf(r: ReservationRecord, users: seq<Users.User>): (u: Option<Users.User>)
    ensures u.Some? ==> u.value.id == r.clientId && u.value in users
    ensures u.None? <==> !Repository.HasKey(users, Users.Id, r.clientId)
    ensures u.Some? ==> exists i :: 0 <= i < |users| && users[i] == u.value
                          && forall j :: 0 <= j < i ==> users[j].id != r.clientId
  {
    Users.FindById(users, r.clientId)
  }

  // ==================== totals ====================

  /** The duration in hours: `(end - start).total_seconds() / 3600`. */
  function Hours(start: int, end: int): (h: real)
    ensures h * 3600.0 == (end - start) as real
    ensures h >= 0.0 <==> end >= start
  {
    (end - start) as real / 3600.0
  }

  /** What one held id adds to the total: price times hours, or nothing when the item no longer exists. */
  function Line(items: seq<SportsItems.ItemRecord>, id: int, hours: real): real {
    match Repository.Find(items, SportsItems.Id, id)
    case None => 0.0
    case Some(item) => item.pricePerHour * hours
  }

  /** Every stored price is non-negative. */
  ghost predicate PricesNonNegative(items: seq<SportsItems.ItemRecord>) {
    forall k :: 0 <= k < |items| ==> items[k].pricePerHour >= 0.0
  }

  /**
   * `sum(item.price_per_hour * hours for item in self.items if item)`: the sum, from
   * left to right, over the held ids whose item still exists.
   */
  function Total(items: seq<SportsItems.ItemRecord>, ids: seq<int>, hours: real): (t: real)
    ensures PricesNonNegative(items) && hours >= 0.0 ==> t >= 0.0
    ensures ids == [] ==> t == 0.0
  {
    if ids == [] then 0.0
    else Total(items, ids[..|ids| - 1], hours) + Line(items, ids[|ids| - 1], hours)
  }

  /** A held id whose item was deleted adds nothing to the total. */
  lemma TotalSkipsMissing(items: seq<SportsItems.ItemRecord>, ids: seq<int>, id: int, hours: real)
    requires SportsItems.FindById(items, id).None?
    ensures Total(items, ids + [id], hours) == Total(items, ids, hours)
  {
    assert (ids + [id])[..|ids|] == ids;
  }

  /** Holding one more existing item raises the total by that item's price times the hours. */
  lemma TotalAppend(items: seq<SportsItems.ItemRecord>, ids: seq<int>, item: SportsItems.ItemRecord, hours: real)
    requires SportsItems.FindById(items, item.id) == Some(item)
    ensures Total(items, ids + [item.id], hours) == Total(items, ids, hours) + item.pricePerHour * hours
  {
    assert (ids + [item.id])[..|ids|] == ids;
  }

  /** Two item lists that agree on every price give every reservation the same total. */
  lemma {:induction false} TotalSamePrices(items1: seq<SportsItems.ItemRecord>, items2: seq<SportsItems.ItemRecord>,
                                           ids: seq<int>, hours: real)
    requires forall id :: Line(items1, id, hours) == Line(items2, id, hours)
    ensures Total(items1, ids, hours) == Total(items2, ids, hours)
  {
    if ids != [] {
      TotalSamePrices(items1, items2, ids[..|ids| - 1], hours);
    }
  }

  /** Changing the availability of a stored item leaves every total unchanged. */
  lemma TotalIgnoresAvailability(items: seq<SportsItems.ItemRecord>, x: SportsItems.ItemRecord, b: bool,
                                 ids: seq<int>, hours: real)
    requires SportsItems.FindById(items, x.id) == Some(x)
    ensures Total(Repository.Upsert(items, SportsItems.Id, x.(available := b)), ids, hours) == Total(items, ids, hours)
  {
    var items2 := Repository.Upsert(items, SportsItems.Id, x.(available := b));
    forall id ensures Line(items, id, hours) == Line(items2, id, hours) {
      if id == x.id {
        Repository.FindAfterUpsert(items, SportsItems.Id, x.(available := b));
      } else {
        Repository.FindOtherAfterUpsert(items, SportsItems.Id, x.(available := b), id);
      }
    }
    TotalSamePrices(items, items2, ids, hours);
  }

  // ==================== the availability invariant ====================

  /** Every id occurs at most once. */
  ghost predicate NoDuplicates(s: seq<int>) {
    forall y :: multiset(s)[y] <= 1
  }

  ghost predicate Disjoint(a: seq<int>, b: seq<int>) {
    forall y :: y in a ==> y !in b
  }

  /** Some Pending or Confirmed reservation holds the item. */
  ghost predicate HeldBy(rs: seq<ReservationRecord>, itemId: int) {
    exists k :: 0 <= k < |rs| && rs[k].state.Active() && itemId in rs[k].itemIds
  }

  /** Some Pending or Confirmed reservation other than the one at position `kk` holds the item. */
  ghost predicate HeldByOther(rs: seq<ReservationRecord>, kk: int, itemId: int) {
    exists k :: 0 <= k < |rs| && k != kk && rs[k].state.Active() && itemId in rs[k].itemIds
  }

  /**
   * The system-level invariant: ids are unique in both files, an active reservation
   * holds each item at most once, no item is held by two active reservations, and an
   * item is unavailable exactly when an active reservation holds it.
   */
  ghost predicate AvailabilityInvariant(items: seq<SportsItems.ItemRecord>, rs: seq<ReservationRecord>) {
    && Repository.UniqueKeys(items, SportsItems.Id)
    && Repository.UniqueKeys(rs, Id)
    && (forall k :: 0 <= k < |rs| && rs[k].state.Active() ==> NoDuplicates(rs[k].itemIds))
    && (forall k, l :: 0 <= k < |rs| && 0 <= l < |rs| && k != l && rs[k].state.Active() && rs[l].state.Active()
          ==> Disjoint(rs[k].itemIds, rs[l].itemIds))
    && (forall j :: 0 <= j < |items| ==> (!items[j].available <==> HeldBy(rs, items[j].id)))
  }

  /** Holding splits into the reservation at position `kk` and all the others. */
  lemma HeldBySplit(rs: seq<ReservationRecord>, kk: nat, itemId: int)
    requires kk < |rs|
    ensures HeldBy(rs, itemId) <==> HeldByOther(rs, kk, itemId) || (rs[kk].state.Active() && itemId in rs[kk].itemIds)
  {
    if HeldBy(rs, itemId) {
      var k :| 0 <= k < |rs| && rs[k].state.Active() && itemId in rs[k].itemIds;
      if k != kk {
        assert HeldByOther(rs, kk, itemId);
      }
    }
  }

  /** Replacing the reservation at position `kk` does not change who else holds an item. */
  lemma HeldByOtherReplace(rs: seq<ReservationRecord>, kk: nat, r: ReservationRecord, itemId: int)
    requires kk < |rs|
    ensures HeldByOther(rs[kk := r], kk, itemId) <==> HeldByOther(rs, kk, itemId)
  {
    if HeldByOther(rs, kk, itemId) {
      var k :| 0 <= k < |rs| && k != kk && rs[k].state.Active() && itemId in rs[k].itemIds;
      assert rs[kk := r][k] == rs[k];
    }
    if HeldByOther(rs[kk := r], kk, itemId) {
      var k :| 0 <= k < |rs| && k != kk && rs[kk := r][k].state.Active() && itemId in rs[kk := r][k].itemIds;
      assert rs[kk := r][k] == rs[k];
    }
  }

  /** Holding, after the reservation at position `kk` is replaced by `r`. */
  lemma HeldByAfterReplace(rs: seq<ReservationRecord>, kk: nat, r: ReservationRecord, itemId: int)
    requires kk < |rs|
    ensures HeldBy(rs[kk := r], itemId) <==> HeldByOther(rs, kk, itemId) || (r.state.Active() && itemId in r.itemIds)
  {
    HeldBySplit(rs[kk := r], kk, itemId);
    HeldByOtherReplace(rs, kk, r, itemId);
  }

  /** Under the invariant, an item held by the active reservation at `kk` is held by no other active one. */
  lemma HeldByNoOther(items: seq<SportsItems.ItemRecord>, rs: seq<ReservationRecord>, kk: nat, itemId: int)
    requires AvailabilityInvariant(items, rs)
    requires kk < |rs| && rs[kk].state.Active() && itemId in rs[kk].itemIds
    ensures !HeldByOther(rs, kk, itemId)
  {
    forall k | 0 <= k < |rs| && k != kk && rs[k].state.Active() ensures itemId !in rs[k].itemIds {
      assert Disjoint(rs[kk].itemIds, rs[k].itemIds);
    }
  }

  /**
   * The invariant survives replacing the reservation at `kk` by `r` (same id) and
   * setting the availability of item `j`, when holding changes only for that item and
   * `r` stays consistent with the other active reservations.
   */
  lemma {:induction false} ReplacePreserves(items: seq<SportsItems.ItemRecord>, rs: seq<ReservationRecord>,
                                            kk: nat, r: ReservationRecord, j: nat, b: bool)
    requires AvailabilityInvariant(items, rs)
    requires kk < |rs| && j < |items| && r.id == rs[kk].id
    requires r.state.Active() ==> NoDuplicates(r.itemIds)
    requires r.state.Active() ==> forall y :: y in r.itemIds ==> !HeldByOther(rs, kk, y)
    requires forall y :: y != items[j].id ==>
               ((r.state.Active() && y in r.itemIds) <==> (rs[kk].state.Active() && y in rs[kk].itemIds))
    requires !b <==> HeldByOther(rs, kk, items[j].id) || (r.state.Active() && items[j].id in r.itemIds)
    ensures AvailabilityInvariant(items[j := items[j].(available := b)], rs[kk := r])
  {
    var items2 := items[j := items[j].(available := b)];
    var rs2 := rs[kk := r];
    forall k, l | 0 <= k < |rs2| && 0 <= l < |rs2| && k != l && rs2[k].state.Active() && rs2[l].state.Active()
      ensures Disjoint(rs2[k].itemIds, rs2[l].itemIds)
    {
      if k == kk {
        forall y | y in rs2[k].itemIds ensures y !in rs2[l].itemIds {
          assert !HeldByOther(rs, kk, y);
          assert rs2[l] == rs[l];
        }
      } else if l == kk {
        forall y | y in rs2[k].itemIds ensures y !in rs2[l].itemIds {
          assert rs2[k] == rs[k];
          assert HeldByOther(rs, kk, y);
        }
      }
    }
    forall i | 0 <= i < |items2| ensures !items2[i].available <==> HeldBy(rs2, items2[i].id) {
      HeldByAfterReplace(rs, kk, r, items2[i].id);
      if i != j {
        HeldBySplit(rs, kk, items[i].id);
        assert items[i].id != items[j].id;
      }
    }
    assert Repository.UniqueKeys(rs2, Id) by {
      forall a, c | 0 <= a < c < |rs2| ensures Id(rs2[a]) != Id(rs2[c]) {
        assert Id(rs2[a]) == Id(rs[a]) && Id(rs2[c]) == Id(rs[c]);
      }
    }
  }

  /** `add_item` on an active reservation keeps the invariant. */
  lemma AddPreservesInvariant(items: seq<SportsItems.ItemRecord>, rs: seq<ReservationRecord>,
                              x: SportsItems.ItemRecord, r: ReservationRecord, r': ReservationRecord)
    requires AvailabilityInvariant(items, rs)
    requires SportsItems.FindById(items, x.id) == Some(x) && x.available
    requires FindById(rs, r.id) == Some(r) && r.state.Active() && x.id !in r.itemIds
    requires r'.id == r.id && r'.state == r.state && r'.itemIds == r.itemIds + [x.id]
    ensures AvailabilityInvariant(Repository.Upsert(items, SportsItems.Id, x.(available := false)),
                                  Repository.Upsert(rs, Id, r'))
  {
    var j := Repository.FindIndex(items, SportsItems.Id, x.id).value;
    var kk := Repository.FindIndex(rs, Id, r.id).value;
    Repository.UpsertAt(items, SportsItems.Id, x.(available := false), j);
    Repository.UpsertAt(rs, Id, r', kk);
    assert !HeldBy(rs, x.id);
    forall y | y in r'.itemIds ensures !HeldByOther(rs, kk, y) {
      if y != x.id {
        HeldByNoOther(items, rs, kk, y);
      } else {
        HeldBySplit(rs, kk, y);
      }
    }
    ReplacePreserves(items, rs, kk, r', j, false);
  }

  /** `remove_item` of a held item from an active reservation keeps the invariant. */
  lemma RemovePreservesInvariant(items: seq<SportsItems.ItemRecord>, rs: seq<ReservationRecord>,
                                 x: SportsItems.ItemRecord, r: ReservationRecord, r': ReservationRecord)
    requires AvailabilityInvariant(items, rs)
    requires SportsItems.FindById(items, x.id) == Some(x)
    requires FindById(rs, r.id) == Some(r) && r.state.Active() && x.id in r.itemIds
    requires r'.id == r.id && r'.state == r.state && r'.itemIds == Repository.RemoveFirst(r.itemIds, x.id)
    ensures AvailabilityInvariant(Repository.Upsert(items, SportsItems.Id, x.(available := true)),
                                  Repository.Upsert(rs, Id, r'))
  {
    var j := Repository.FindIndex(items, SportsItems.Id, x.id).value;
    var kk := Repository.FindIndex(rs, Id, r.id).value;
    Repository.UpsertAt(items, SportsItems.Id, x.(available := true), j);
    Repository.UpsertAt(rs, Id, r', kk);
    RemoveFirstUnique(r.itemIds, x.id);
    forall y | y in r'.itemIds ensures !HeldByOther(rs, kk, y) {
      HeldByNoOther(items, rs, kk, y);
    }
    HeldByNoOther(items, rs, kk, x.id);
    ReplacePreserves(items, rs, kk, r', j, true);
  }

  /** `confirm` keeps the invariant: a Pending reservation becomes Confirmed and holds the same items. */
  lemma ConfirmPreservesInvariant(items: seq<SportsItems.ItemRecord>, rs: seq<ReservationRecord>,
                                  r: ReservationRecord)
    requires AvailabilityInvariant(items, rs)
    requires FindById(rs, r.id) == Some(r) && r.state == Pending
    ensures AvailabilityInvariant(items, Repository.Upsert(rs, Id, r.(state := Confirmed)))
  {
    var kk := Repository.FindIndex(rs, Id, r.id).value;
    Repository.UpsertAt(rs, Id, r.(state := Confirmed), kk);
    var rs2 := rs[kk := r.(state := Confirmed)];
    assert forall k :: 0 <= k < |rs| ==> rs2[k].itemIds == rs[k].itemIds && rs2[k].id == rs[k].id
                                         && (rs2[k].state.Active() <==> rs[k].state.Active());
    forall id ensures HeldBy(rs2, id) <==> HeldBy(rs, id) {
      HeldBySplit(rs, kk, id);
      HeldByAfterReplace(rs, kk, r.(state := Confirmed), id);
    }
  }

  /** On a list without repetitions, removing `v` leaves exactly the other ids, still without repetitions. */
  lemma RemoveFirstUnique(s: seq<int>, v: int)
    requires NoDuplicates(s) && v in s
    ensures NoDuplicates(Repository.RemoveFirst(s, v))
    ensures forall y :: y in Repository.RemoveFirst(s, v) <==> y in s && y != v
  {
    var r := Repository.RemoveFirst(s, v);
    assert multiset(s)[v] == 1;
    forall y ensures y in r <==> y in s && y != v {
      assert y in r <==> multiset(r)[y] > 0;
      assert y in s <==> multiset(s)[y] > 0;
    }
  }

  /** Sets the first stored record with id `id` to availability `b`; no such record, no change. */
  function SetAvailability(items: seq<SportsItems.ItemRecord>, id: int, b: bool): (r: seq<SportsItems.ItemRecord>)
    ensures |r| == |items| && forall j :: 0 <= j < |items| ==> r[j].id == items[j].id
    ensures SportsItems.FindById(items, id).None? ==> r == items
    ensures SportsItems.FindById(items, id).Some?
            ==> SportsItems.FindById(r, id) == Some(SportsItems.FindById(items, id).value.(available := b))
    ensures Repository.UniqueKeys(items, SportsItems.Id) ==>
              forall j :: 0 <= j < |items| ==> r[j] == if items[j].id == id then items[j].(available := b) else items[j]
  {
    match Repository.FindIndex(items, SportsItems.Id, id)
    case None => items
    case Some(j) =>
      var r := items[j := items[j].(available := b)];
      assert Repository.FindIndex(r, SportsItems.Id, id) == Some(j) by {
        forall k | 0 <= k < j ensures SportsItems.Id(r[k]) != id {
          assert r[k] == items[k];
        }
        assert SportsItems.Id(r[j]) == id;
      }
      r
  }

  /** The release loop of `cancel` and `complete`: every held item that still exists is set available. */
  function Release(items: seq<SportsItems.ItemRecord>, ids: seq<int>): (r: seq<SportsItems.ItemRecord>)
    ensures |r| == |items| && forall j :: 0 <= j < |items| ==> r[j].id == items[j].id
    ensures forall j :: 0 <= j < |items| && items[j].available ==> r[j].available
  {
    if ids == [] then items
    else SetAvailability(Release(items, ids[..|ids| - 1]), ids[|ids| - 1], true)
  }

  /** Releasing one more id is one more availability update. */
  lemma ReleaseSnoc(items: seq<SportsItems.ItemRecord>, ids: seq<int>, id: int)
    ensures Release(items, ids + [id]) == SetAvailability(Release(items, ids), id, true)
  {
    assert (ids + [id])[..|ids|] == ids;
  }

  /** With unique ids, releasing sets exactly the held items available and changes nothing else. */
  lemma {:induction false} ReleaseEffect(items: seq<SportsItems.ItemRecord>, ids: seq<int>)
    requires Repository.UniqueKeys(items, SportsItems.Id)
    ensures |Release(items, ids)| == |items|
    ensures forall j :: 0 <= j < |items| ==>
              Release(items, ids)[j] == items[j].(available := items[j].available || items[j].id in ids)
  {
    if ids != [] {
      var prefix := ids[..|ids| - 1];
      var last := ids[|ids| - 1];
      assert ids == prefix + [last];
      ReleaseEffect(items, prefix);
      var mid := Release(items, prefix);
      assert Repository.UniqueKeys(mid, SportsItems.Id) by {
        forall a, c | 0 <= a < c < |mid| ensures mid[a].id != mid[c].id {
          assert mid[a].id == items[a].id && mid[c].id == items[c].id;
        }
      }
      match Repository.FindIndex(mid, SportsItems.Id, last)
      case None =>
      case Some(j0) =>
        Repository.FindIndexUnique(mid, SportsItems.Id, j0);
    }
  }

  /** Saving a loaded item after setting it available is `SetAvailability` on the file. */
  lemma SaveAvailableIsSetAvailability(items: seq<SportsItems.ItemRecord>, x: SportsItems.ItemRecord, b: bool)
    requires SportsItems.FindById(items, x.id) == Some(x)
    ensures Repository.Upsert(items, SportsItems.Id, x.(available := b)) == SetAvailability(items, x.id, b)
  {
  }

  /** `cancel` and `complete` keep the invariant: the reservation leaves the active states and its items are released. */
  lemma ReleasePreservesInvariant(items: seq<SportsItems.ItemRecord>, rs: seq<ReservationRecord>,
                                  r: ReservationRecord, s: State)
    requires AvailabilityInvariant(items, rs)
    requires FindById(rs, r.id) == Some(r) && r.state.Active() && !s.Active()
    ensures AvailabilityInvariant(Release(items, r.itemIds), Repository.Upsert(rs, Id, r.(state := s)))
  {
    var kk := Repository.FindIndex(rs, Id, r.id).value;
    Repository.UpsertAt(rs, Id, r.(state := s), kk);
    var rs2 := rs[kk := r.(state := s)];
    var items2 := Release(items, r.itemIds);
    ReleaseEffect(items, r.itemIds);
    assert Repository.UniqueKeys(items2, SportsItems.Id) by {
      forall a, c | 0 <= a < c < |items2| ensures items2[a].id != items2[c].id {
        assert items2[a].id == items[a].id && items2[c].id == items[c].id;
      }
    }
    assert Repository.UniqueKeys(rs2, Id) by {
      forall a, c | 0 <= a < c < |rs2| ensures Id(rs2[a]) != Id(rs2[c]) {
        assert Id(rs2[a]) == Id(rs[a]) && Id(rs2[c]) == Id(rs[c]);
      }
    }
    forall i | 0 <= i < |items2| ensures !items2[i].available <==> HeldBy(rs2, items2[i].id) {
      var id := items[i].id;
      HeldBySplit(rs, kk, id);
      HeldByAfterReplace(rs, kk, r.(state := s), id);
      if id in r.itemIds {
        HeldByNoOther(items, rs, kk, id);
      }
    }
  }

  /** A new Pending reservation without items keeps the invariant. */
  lemma CreatePreservesInvariant(items: seq<SportsItems.ItemRecord>, rs: seq<ReservationRecord>, r: ReservationRecord)
    requires AvailabilityInvariant(items, rs)
    requires r.id == NextId(rs) && r.itemIds == []
    ensures AvailabilityInvariant(items, rs + [r])
  {
    var rs2 := rs + [r];
    forall id ensures HeldBy(rs2, id) <==> HeldBy(rs, id) {
      if HeldBy(rs2, id) {
        var k :| 0 <= k < |rs2| && rs2[k].state.Active() && id in rs2[k].itemIds;
        assert k < |rs| && rs2[k] == rs[k];
      }
      if HeldBy(rs, id) {
        var k :| 0 <= k < |rs| && rs[k].state.Active() && id in rs[k].itemIds;
        assert rs2[k] == rs[k];
      }
    }
  }

  /** No double claim: under the invariant, an item held by an active reservation is unavailable. */
  lemma HeldItemUnavailable(items: seq<SportsItems.ItemRecord>, rs: seq<ReservationRecord>, k: nat, j: nat)
    requires AvailabilityInvariant(items, rs)
    requires k < |rs| && j < |items| && rs[k].state.Active() && items[j].id in rs[k].itemIds
    ensures !items[j].available
  {
    assert HeldBy(rs, items[j].id);
  }

  // ==================== the reservation object ====================

  class Reservation {
    const id: int
    const clientId: int
    const start: int
    const end: int
    var itemIds: seq<int>
    var totalValue: real
    var state: State

    /** `__init__`; Python's defaults are the empty item list, a total of 0.0 and "Pending". */
    constructor (id: int, clientId: int, start: int, end: int, itemIds: seq<int>, totalValue: real, state: State)
      ensures Record() == ReservationRecord(id, clientId, start, end, itemIds, totalValue, state)
    {
      this.id := id;
      this.clientId := clientId;
      this.start := start;
      this.end := end;
      this.itemIds := itemIds;
      this.totalValue := totalValue;
      this.state := state;
    }

    /** The record `to_dict` writes for this object. */
    function Record(): ReservationRecord
      reads this
    {
      ReservationRecord(id, clientId, start, end, itemIds, totalValue, state)
    }

    /** The file holds this object's current record under its id. */
    predicate Synced(file: ReservationFile)
      reads this, file
    {
      FindById(file.rows, id) == Some(Record())
    }

    /**
     * The conditions under which the source keeps its availability invariant: the
     * invariant holds, this reservation is saved, and `item` was just loaded.
     */
    ghost predicate Consistent(item: SportsItems.SportsItem, items: SportsItems.ItemFile, file: ReservationFile)
      reads this, item, items, file
    {
      && AvailabilityInvariant(items.rows, file.rows)
      && Synced(file)
      && SportsItems.FindById(items.rows, item.id) == Some(item.Record())
    }

    /** `save`: replace the record with this id in place, or append. */
    method Save(file: ReservationFile)
      modifies file
      ensures file.rows == Repository.Upsert(old(file.rows), Id, Record())
      ensures Synced(file)
    {
      file.rows := Repository.SaveRow(file.rows, Id, Record());
      Repository.FindAfterUpsert(old(file.rows), Id, Record());
    }

    /** `calculate_total`: store and return the sum over the held items that still exist. */
    method CalculateTotal(items: SportsItems.ItemFile) returns (t: real)
      modifies this
      ensures t == totalValue == Total(items.rows, itemIds, Hours(start, end))
      ensures itemIds == old(itemIds) && state == old(state)
    {
      totalValue := Total(items.rows, itemIds, Hours(start, end));
      t := totalValue;
    }

    /**
     * The tail shared by `add_item` and `remove_item`: save the item, recompute the total
     * and save the reservation.
     */
    method SaveAll(item: SportsItems.SportsItem, items: SportsItems.ItemFile, file: ReservationFile)
      modifies this, items, file
      ensures items.rows == Repository.Upsert(old(items.rows), SportsItems.Id, item.Record())
      ensures SportsItems.FindById(items.rows, item.id) == Some(item.Record())
      ensures itemIds == old(itemIds) && state == old(state)
      ensures totalValue == Total(items.rows, itemIds, Hours(start, end))
      ensures file.rows == Repository.Upsert(old(file.rows), Id, Record()) && Synced(file)
    {
      item.Save(items);
      Repository.FindAfterUpsert(old(items.rows), SportsItems.Id, item.Record());
      var _ := CalculateTotal(items);
      Save(file);
    }

    /**
     * `add_item`: accepted only when the item is available and not yet held; the id is
     * appended, the item is saved unavailable, the total is recomputed and the
     * reservation saved. Otherwise nothing changes.
     */
    method AddItem(item: SportsItems.SportsItem, items: SportsItems.ItemFile, file: ReservationFile) returns (ok: bool)
      modifies this, item, items, file
      ensures ok == (old(item.available) && item.id !in old(itemIds))
      ensures ok ==> itemIds == old(itemIds) + [item.id]
      ensures ok ==> item.Record() == old(item.Record()).(available := false)
      ensures ok ==> items.rows == Repository.Upsert(old(items.rows), SportsItems.Id, item.Record())
      ensures ok ==> totalValue == Total(items.rows, itemIds, Hours(start, end))
      ensures ok ==> file.rows == Repository.Upsert(old(file.rows), Id, Record()) && Synced(file)
      ensures !ok ==>
                itemIds == old(itemIds) && totalValue == old(totalValue) && item.available == old(item.available)
                && items.rows == old(items.rows) && file.rows == old(file.rows)
      ensures state == old(state)
      ensures old(Consistent(item, items, file)) && old(state.Active()) ==>
                AvailabilityInvariant(items.rows, file.rows) && Consistent(item, items, file)
    {
      if item.CheckAvailability() && item.id !in itemIds {
        ghost var x, r := item.Record(), Record();
        itemIds := itemIds + [item.id];
        item.SetAvailable(false);
        SaveAll(item, items, file);
        ok := true;
        if old(Consistent(item, items, file)) && r.state.Active() {
          AddPreservesInvariant(old(items.rows), old(file.rows), x, r, Record());
        }
      } else {
        ok := false;
      }
    }

    /**
     * `remove_item`: when the id is held, its first occurrence is removed, the item is
     * saved available, the total is recomputed and the reservation saved. Otherwise a no-op.
     */
    method RemoveItem(item: SportsItems.SportsItem, items: SportsItems.ItemFile, file: ReservationFile)
      modifies this, item, items, file
      ensures old(item.id in itemIds) ==> itemIds == Repository.RemoveFirst(old(itemIds), item.id)
      ensures old(item.id in itemIds) ==> item.Record() == old(item.Record()).(available := true)
      ensures old(item.id in itemIds) ==> items.rows == Repository.Upsert(old(items.rows), SportsItems.Id, item.Record())
      ensures old(item.id in itemIds) ==> totalValue == Total(items.rows, itemIds, Hours(start, end))
      ensures old(item.id in itemIds) ==> file.rows == Repository.Upsert(old(file.rows), Id, Record()) && Synced(file)
      ensures old(item.id !in itemIds) ==>
                itemIds == old(itemIds) && totalValue == old(totalValue) && item.available == old(item.available)
                && items.rows == old(items.rows) && file.rows == old(file.rows)
      ensures state == old(state)
      ensures old(Consistent(item, items, file)) && old(state.Active()) ==>
                AvailabilityInvariant(items.rows, file.rows) && Consistent(item, items, file)
    {
      if item.id in itemIds {
        ghost var x, r := item.Record(), Record();
        itemIds := Repository.RemoveFirst(itemIds, item.id);
        item.SetAvailable(true);
        SaveAll(item, items, file);
        if old(Consistent(item, items, file)) && r.state.Active() {
          RemovePreservesInvariant(old(items.rows), old(file.rows), x, r, Record());
        }
      }
    }

    /** `confirm`: only a Pending reservation holding at least one item becomes Confirmed. */
    method Confirm(file: ReservationFile) returns (ok: bool)
      modifies this, file
      ensures ok == (old(state) == Pending && |itemIds| > 0)
      ensures ok ==> state == Confirmed && file.rows == Repository.Upsert(old(file.rows), Id, Record())
      ensures !ok ==> state == old(state) && file.rows == old(file.rows)
      ensures itemIds == old(itemIds) && totalValue == old(totalValue)
      ensures forall items :: old(AvailabilityInvariant(items, file.rows) && Synced(file)) ==>
                AvailabilityInvariant(items, file.rows) && Synced(file)
    {
      ghost var rows0, record0 := file.rows, Record();
      if state == Pending && |itemIds| > 0 {
        state := Confirmed;
        Save(file);
        ok := true;
        forall items | AvailabilityInvariant(items, rows0) && FindById(rows0, id) == Some(record0)
          ensures AvailabilityInvariant(items, file.rows)
        {
          ConfirmPreservesInvariant(items, rows0, record0);
        }
      } else {
        ok := false;
      }
    }

    /** One step of the release loop: load the item, set it available and save it, when it still exists. */
    static method ReleaseOne(items: SportsItems.ItemFile, id: int)
      modifies items
      ensures items.rows == SetAvailability(old(items.rows), id, true)
    {
      var found := SportsItems.SportsItem.Load(items, id);
      if found != null {
        ghost var loaded := found.Record();
        found.SetAvailable(true);
        SaveAvailableIsSetAvailability(items.rows, loaded, true);
        found.Save(items);
      }
    }

    /** Sets every held item that still exists available again, one item at a time. */
    method ReleaseHeld(items: SportsItems.ItemFile)
      modifies items
      ensures items.rows == Release(old(items.rows), itemIds)
    {
      var k := 0;
      while k < |itemIds|
        invariant 0 <= k <= |itemIds|
        invariant items.rows == Release(old(items.rows), itemIds[..k])
        modifies items
      {
        assert itemIds[..k + 1] == itemIds[..k] + [itemIds[k]];
        ReleaseSnoc(old(items.rows), itemIds[..k], itemIds[k]);
        ReleaseOne(items, itemIds[k]);
        k := k + 1;
      }
      assert itemIds[..k] == itemIds;
    }

    /** `cancel`: from Pending or Confirmed, move to Cancelled and release every held item. */
    method Cancel(items: SportsItems.ItemFile, file: ReservationFile) returns (ok: bool)
      modifies this, items, file
      ensures ok == old(state.Active())
      ensures ok ==>
                state == Cancelled && items.rows == Release(old(items.rows), itemIds)
                && file.rows == Repository.Upsert(old(file.rows), Id, Record()) && Synced(file)
      ensures !ok ==> state == old(state) && items.rows == old(items.rows) && file.rows == old(file.rows)
      ensures itemIds == old(itemIds) && totalValue == old(totalValue)
      ensures old(AvailabilityInvariant(items.rows, file.rows) && Synced(file)) ==>
                AvailabilityInvariant(items.rows, file.rows) && Synced(file)
    {
      ghost var items0, rows0, record0 := items.rows, file.rows, Record();
      if state.Active() {
        state := Cancelled;
        ReleaseHeld(items);
        Save(file);
        ok := true;
        if AvailabilityInvariant(items0, rows0) && FindById(rows0, id) == Some(record0) {
          ReleasePreservesInvariant(items0, rows0, record0, Cancelled);
        }
      } else {
        ok := false;
      }
    }

    /** `complete`: only from Confirmed, move to Completed and release every held item. */
    method Complete(items: SportsItems.ItemFile, file: ReservationFile) returns (ok: bool)
      modifies this, items, file
      ensures ok == (old(state) == Confirmed)
      ensures ok ==>
                state == Completed && items.rows == Release(old(items.rows), itemIds)
                && file.rows == Repository.Upsert(old(file.rows), Id, Record()) && Synced(file)
      ensures !ok ==> state == old(state) && items.rows == old(items.rows) && file.rows == old(file.rows)
      ensures itemIds == old(itemIds) && totalValue == old(totalValue)
      ensures old(AvailabilityInvariant(items.rows, file.rows) && Synced(file)) ==>
                AvailabilityInvariant(items.rows, file.rows) && Synced(file)
    {
      ghost var items0, rows0, record0 := items.rows, file.rows, Record();
      if state == Confirmed {
        state := Completed;
        ReleaseHeld(items);
        Save(file);
        ok := true;
        if AvailabilityInvariant(items0, rows0) && FindById(rows0, id) == Some(record0) {
          ReleasePreservesInvariant(items0, rows0, record0, Completed);
        }
      } else {
        ok := false;
      }
    }

    /** `find_by_id` as the source uses it: a new object built from the first matching record, or None. */
    static method Load(file: ReservationFile, id: int) returns (r: Reservation?)
      ensures r == null <==> FindById(file.rows, id).None?
      ensures r != null ==> fresh(r) && FindById(file.rows, id) == Some(r.Record())
    {
      var found := FindById(file.rows, id);
      if found.Some? {
        var x := found.value;
        r := new Reservation(x.id, x.clientId, x.start, x.end, x.itemIds, x.totalValue, x.state);
      } else {
        r := null;
      }
    }

    /** `create`: a Pending reservation without items and total 0.0, with a fresh id, appended to the file. */
    static method Create(file: ReservationFile, clientId: int, start: int, end: int) returns (r: Reservation)
      modifies file
      ensures fresh(r)
      ensures r.Record() == ReservationRecord(NextId(old(file.rows)), clientId, start, end, [], 0.0, Pending)
      ensures !Repository.HasKey(old(file.rows), Id, r.id)
      ensures file.rows == old(file.rows) + [r.Record()] && r.Synced(file)
    {
      var newId := NextId(file.rows);
      r := new Reservation(newId, clientId, start, end, [], 0.0, Pending);
      Repository.SaveNewAppends(file.rows, Id, FirstId, r.Record());
      r.Save(file);
    }
  }
}
