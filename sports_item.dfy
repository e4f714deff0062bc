/**
 * Sports items (Projeto/models/sports_item.py): an item with a price per hour, an
 * optional category and an availability flag, stored as one record per item in
 * the items file.
 */
module SportsItems {
  import opened Wrappers
  import Json
  import Repository

  /** The stored form of an item (the dictionary `to_dict` builds, with typed fields). */
  datatype ItemRecord = ItemRecord(
    id: int,
    name: string,
    brand: string,
    pricePerHour: real,
    categoryId: Option<int>,
    available: bool)

  function Id(r: ItemRecord): int { r.id }

  /** The items file: the ordered list of item records. */
  class ItemFile {
    var rows: seq<ItemRecord>

    constructor (rows0: seq<ItemRecord>)
      ensures rows == rows0
    {
      rows := rows0;
    }
  }

  // ==================== serialisation ====================

  /** `to_dict`: one key per field, the category written as null when there is none. */
  function ToDict(r: ItemRecord): (d: Json.Object)
    ensures d.Keys == {"id", "name", "brand", "price_per_hour", "available", "category_id"}
    ensures d["id"] == Json.Int(r.id) && d["available"] == Json.Bool(r.available)
    ensures d["category_id"] == Json.Null <==> r.categoryId.None?
  {
    map[
      "id" := Json.Int(r.id),
      "name" := Json.Str(r.name),
      "brand" := Json.Str(r.brand),
      "price_per_hour" := Json.Num(r.pricePerHour),
      "available" := Json.Bool(r.available),
      "category_id" := Json.OptIntValue(r.categoryId)]
  }

  /** `from_dict`: id, name, brand and price are required; `category_id` defaults to None and `available` to true. */
  function FromDict(d: Json.Object): (r: Result<ItemRecord, Json.DecodeError>)
    ensures r.Success? ==> "id" in d && d["id"] == Json.Int(r.value.id)
    ensures r.Success? && "available" !in d ==> r.value.available
    ensures r.Success? && "category_id" !in d ==> r.value.categoryId.None?
    ensures "id" !in d ==> r == Failure(Json.MissingKey("id"))
  {
    var id :- Json.GetInt(d, "id");
    var name :- Json.GetStr(d, "name");
    var brand :- Json.GetStr(d, "brand");
    var price :- Json.GetNum(d, "price_per_hour");
    var categoryId :- Json.GetOptInt(d, "category_id");
    var available :- Json.GetBoolOr(d, "available", true);
    Success(ItemRecord(id, name, brand, price, categoryId, available))
  }

  /** `from_dict(to_dict(x))` reproduces every field. */
  lemma FromDictToDict(r: ItemRecord)
    ensures FromDict(ToDict(r)) == Success(r)
  {
    var d := ToDict(r);
    assert Json.GetOptInt(d, "category_id") == Success(r.categoryId);
  }

  /** A record stored without `available` and `category_id` reads back available and without category. */
  lemma FromDictDefaults(r: ItemRecord)
    ensures FromDict(ToDict(r) - {"available", "category_id"})
         == Success(r.(available := true, categoryId := None))
  {
  }

  // ==================== queries ====================

  /** `get_next_id`: 1 for an empty file, otherwise the largest id plus one. */
  function NextId(rows: seq<ItemRecord>): (n: int)
    ensures rows == [] ==> n == 1
    ensures forall k :: 0 <= k < |rows| ==> rows[k].id < n
    ensures rows != [] ==> exists k :: 0 <= k < |rows| && rows[k].id == n - 1
  {
    Repository.NextId(rows, Id, 1)
  }

  /** `find_by_id`: the first record with that id, or None. */
  function FindById(rows: seq<ItemRecord>, id: int): (r: Option<ItemRecord>)
    ensures r.Some? ==> r.value.id == id && r.value in rows
    ensures r.None? <==> forall k :: 0 <= k < |rows| ==> rows[k].id != id
    ensures r.Some? ==> exists i :: 0 <= i < |rows| && rows[i] == r.value
                          && forall j :: 0 <= j < i ==> rows[j].id != id
  {
    Repository.Find(rows, Id, id)
  }

  function InCategory(c: Option<int>): ItemRecord -> bool {
    (r: ItemRecord) => r.categoryId == c
  }

  predicate IsAvailable(r: ItemRecord) { r.available }

  /**
   * `get_all(category_id, available_only)`: the category filter applies when
   * `category_id` is truthy, then the availability filter when `available_only` is set.
   */
  function GetAll(rows: seq<ItemRecord>, categoryId: Option<int>, availableOnly: bool): (r: seq<ItemRecord>)
    ensures forall k :: 0 <= k < |r| ==> Truthy(categoryId) ==> r[k].categoryId == categoryId
    ensures forall k :: 0 <= k < |r| ==> availableOnly ==> r[k].available
    ensures !Truthy(categoryId) && !availableOnly ==> r == rows
  {
    var byCategory := if Truthy(categoryId) then Repository.Filter(rows, InCategory(categoryId)) else rows;
    if availableOnly then Repository.Filter(byCategory, IsAvailable) else byCategory
  }

  /** An item is listed exactly when it is stored and passes both requested filters. */
  lemma GetAllMembership(rows: seq<ItemRecord>, categoryId: Option<int>, availableOnly: bool, x: ItemRecord)
    ensures x in GetAll(rows, categoryId, availableOnly)
        <==> x in rows && (Truthy(categoryId) ==> x.categoryId == categoryId) && (availableOnly ==> x.available)
  {
    Repository.FilterMembership(rows, InCategory(categoryId), x);
    var byCategory := if Truthy(categoryId) then Repository.Filter(rows, InCategory(categoryId)) else rows;
    Repository.FilterMembership(byCategory, IsAvailable, x);
  }

  /** Listing works piecewise over the file, so the result keeps the file's order. */
  lemma GetAllConcat(a: seq<ItemRecord>, b: seq<ItemRecord>, categoryId: Option<int>, availableOnly: bool)
    ensures GetAll(a + b, categoryId, availableOnly)
         == GetAll(a, categoryId, availableOnly) + GetAll(b, categoryId, availableOnly)
  {
    Repository.FilterConcat(a, b, InCategory(categoryId));
    var ca := if Truthy(categoryId) then Repository.Filter(a, InCategory(categoryId)) else a;
    var cb := if Truthy(categoryId) then Repository.Filter(b, InCategory(categoryId)) else b;
    Repository.FilterConcat(ca, cb, IsAvailable);
  }

  /** `find_by_category(c)`: `get_all(category_id=c)`. */
  function FindByCategory(rows: seq<ItemRecord>, categoryId: int): (r: seq<ItemRecord>)
    ensures categoryId != 0 ==> forall k :: 0 <= k < |r| ==> r[k].categoryId == Some(categoryId)
    ensures categoryId == 0 ==> r == rows
  {
    GetAll(rows, Some(categoryId), false)
  }

  /** Every stored item of category `c` (for a truthy `c`) is listed, as often as it is stored. */
  lemma FindByCategoryCount(rows: seq<ItemRecord>, c: int, x: ItemRecord)
    requires c != 0
    ensures multiset(FindByCategory(rows, c))[x] == if x.categoryId == Some(c) then multiset(rows)[x] else 0
  {
    Repository.FilterCount(rows, InCategory(Some(c)), x);
  }

  // ==================== the item object ====================

  class SportsItem {
    const id: int
    const name: string
    const brand: string
    const pricePerHour: real
    const categoryId: Option<int>
    var available: bool

    constructor (id: int, name: string, brand: string, pricePerHour: real,
                 categoryId: Option<int>, available: bool)
      ensures Record() == ItemRecord(id, name, brand, pricePerHour, categoryId, available)
    {
      this.id := id;
      this.name := name;
      this.brand := brand;
      this.pricePerHour := pricePerHour;
      this.categoryId := categoryId;
      this.available := available;
    }

    /** The record `to_dict` writes for this object. */
    function Record(): ItemRecord
      reads this
    {
      ItemRecord(id, name, brand, pricePerHour, categoryId, available)
    }

    /** `check_availability`: whether the item may be reserved, as its record stores it. */
    function CheckAvailability(): (b: bool)
      reads this
      ensures b <==> Record().available
    {
      available
    }

    /** `set_available(b)`: afterwards `check_availability()` is `b`, and no other field changes. */
    method SetAvailable(b: bool)
      modifies this
      ensures CheckAvailability() == b
      ensures Record() == old(Record()).(available := b)
    {
      available := b;
    }

    /** `save`: replace the record with this id in place, or append. */
    method Save(file: ItemFile)
      modifies file
      ensures file.rows == Repository.Upsert(old(file.rows), Id, Record())
    {
      file.rows := Repository.SaveRow(file.rows, Id, Record());
    }

    /** `delete`: drop every record with this id, keeping the others in order. */
    method Delete(file: ItemFile)
      modifies file
      ensures file.rows == Repository.Delete(old(file.rows), Id, id)
    {
      file.rows := Repository.Delete(file.rows, Id, id);
    }

    /** `find_by_id` as the source uses it: a new object built from the first matching record, or None. */
    static method Load(file: ItemFile, id: int) returns (item: SportsItem?)
      ensures item == null <==> FindById(file.rows, id).None?
      ensures item != null ==> fresh(item) && FindById(file.rows, id) == Some(item.Record())
    {
      var found := FindById(file.rows, id);
      if found.Some? {
        var r := found.value;
        item := new SportsItem(r.id, r.name, r.brand, r.pricePerHour, r.categoryId, r.available);
      } else {
        item := null;
      }
    }

    /** `create`: a new available item with id `get_next_id()`, appended to the file. */
    static method Create(file: ItemFile, name: string, brand: string, pricePerHour: real,
                         categoryId: Option<int>) returns (item: SportsItem)
      modifies file
      ensures fresh(item)
      ensures item.Record() == ItemRecord(NextId(old(file.rows)), name, brand, pricePerHour, categoryId, true)
      ensures file.rows == old(file.rows) + [item.Record()]
      ensures Repository.UniqueKeys(old(file.rows), Id) ==> Repository.UniqueKeys(file.rows, Id)
    {
      var newId := NextId(file.rows);
      item := new SportsItem(newId, name, brand, pricePerHour, categoryId, true);
      Repository.SaveNewAppends(file.rows, Id, 1, item.Record());
      item.Save(file);
    }
  }
}
