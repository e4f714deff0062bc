/**
 * Categories (Projeto/models/category.py): a named grouping of items. Items point
 * at their category by id; the category itself stores no item list.
 */
module Categories {
  import opened Wrappers
  import Json
  import Repository
  import SportsItems

  datatype Category = Category(id: int, name: string, description: string)

  function Id(c: Category): int { c.id }

  /** The categories file: the ordered list of category records. */
  class CategoryFile {
    var rows: seq<Category>

    constructor (rows0: seq<Category>)
      ensures rows == rows0
    {
      rows := rows0;
    }
  }

  /** `to_dict`: id, name and description, each under its own key. */
  function ToDict(c: Category): (d: Json.Object)
    ensures d.Keys == {"id", "name", "description"}
    ensures d["id"] == Json.Int(c.id) && d["name"] == Json.Str(c.name)
  {
    map["id" := Json.Int(c.id), "name" := Json.Str(c.name), "description" := Json.Str(c.description)]
  }

  /** `from_dict`: id and name are required, the description defaults to the empty string. */
  function FromDict(d: Json.Object): (r: Result<Category, Json.DecodeError>)
    ensures r.Success? && "description" !in d ==> r.value.description == ""
    ensures r.Success? <==> "id" in d && d["id"].Int? && "name" in d && d["name"].Str?
                            && ("description" in d ==> d["description"].Str?)
  {
    var id :- Json.GetInt(d, "id");
    var name :- Json.GetStr(d, "name");
    var description :- Json.GetStrOr(d, "description", "");
    Success(Category(id, name, description))
  }

  /** `from_dict(to_dict(c))` reproduces id, name and description. */
  lemma FromDictToDict(c: Category)
    ensures FromDict(ToDict(c)) == Success(c)
  {
  }

  /** `get_next_id`: 1 for an empty file, otherwise the largest id plus one. */
  function NextId(rows: seq<Category>): (n: int)
    ensures rows == [] ==> n == 1
    ensures forall k :: 0 <= k < |rows| ==> rows[k].id < n
    ensures rows != [] ==> exists k :: 0 <= k < |rows| && rows[k].id == n - 1
  {
    Repository.NextId(rows, Id, 1)
  }

  /** `find_by_id`: the first category with that id, or None. */
  function FindById(rows: seq<Category>, id: int): (r: Option<Category>)
    ensures r.Some? ==> r.value.id == id && r.value in rows
    ensures r.None? <==> forall k :: 0 <= k < |rows| ==> rows[k].id != id
    ensures r.Some? ==> exists i :: 0 <= i < |rows| && rows[i] == r.value
                          && forall j :: 0 <= j < i ==> rows[j].id != id
  {
    Repository.Find(rows, Id, id)
  }

  /** `save`: replace the category with the same id in place, or append it. */
  method Save(file: CategoryFile, c: Category)
    modifies file
    ensures file.rows == Repository.Upsert(old(file.rows), Id, c)
    ensures FindById(file.rows, c.id) == Some(c)
  {
    file.rows := Repository.SaveRow(file.rows, Id, c);
    Repository.FindAfterUpsert(old(file.rows), Id, c);
  }

  /** `delete`: drop every record with this id; items still assigned to it are not checked. */
  method Delete(file: CategoryFile, c: Category)
    modifies file
    ensures file.rows == Repository.Delete(old(file.rows), Id, c.id)
    ensures FindById(file.rows, c.id).None?
  {
    file.rows := Repository.Delete(file.rows, Id, c.id);
  }

  /** `create`: a category with a fresh id (`get_next_id()`), appended to the file. */
  method Create(file: CategoryFile, name: string, description: string) returns (c: Category)
    modifies file
    ensures c == Category(NextId(old(file.rows)), name, description)
    ensures !Repository.HasKey(old(file.rows), Id, c.id)
    ensures file.rows == old(file.rows) + [c]
  {
    c := Category(NextId(file.rows), name, description);
    Repository.SaveNewAppends(file.rows, Id, 1, c);
    Save(file, c);
  }

  /** `get_items`: the items listed by `SportsItem.find_by_category(self.id)`. */
  function GetItems(c: Category, items: seq<SportsItems.ItemRecord>): (r: seq<SportsItems.ItemRecord>)
    ensures c.id != 0 ==> forall k :: 0 <= k < |r| ==> r[k].categoryId == Some(c.id)
  {
    SportsItems.FindByCategory(items, c.id)
  }

  /** For a non-zero id, `get_items` lists exactly the items whose `category_id` is this category's id. */
  lemma GetItemsExactly(c: Category, items: seq<SportsItems.ItemRecord>, x: SportsItems.ItemRecord)
    requires c.id != 0
    ensures x in GetItems(c, items) <==> x in items && x.categoryId == Some(c.id)
  {
    SportsItems.GetAllMembership(items, Some(c.id), false, x);
  }

  /** A category whose id is 0 is falsy as a filter, so `get_items` lists every item. */
  lemma GetItemsZeroId(c: Category, items: seq<SportsItems.ItemRecord>)
    requires c.id == 0
    ensures GetItems(c, items) == items
  {
  }

  /** The `category` property of an item: looked up only when `category_id` is truthy. */
  function CategoryOf(item: SportsItems.ItemRecord, rows: seq<Category>): (r: Option<Category>)
    ensures !Truthy(item.categoryId) ==> r.None?
    ensures r.Some? ==> Some(r.value.id) == item.categoryId && r.value in rows
    ensures r.None? <==> !Truthy(item.categoryId) || forall k :: 0 <= k < |rows| ==> rows[k].id != item.categoryId.value
    ensures r.Some? ==> exists i :: 0 <= i < |rows| && rows[i] == r.value
                          && forall j :: 0 <= j < i ==> rows[j].id != r.value.id
  {
    if Truthy(item.categoryId) then FindById(rows, item.categoryId.value) else None
  }

  /** Deleting a category leaves its items pointing at an id that no longer resolves. */
  lemma DeleteLeavesItemsDangling(rows: seq<Category>, c: Category, item: SportsItems.ItemRecord)
    requires item.categoryId == Some(c.id)
    ensures CategoryOf(item, Repository.Delete(rows, Id, c.id)).None?
  {
  }
}
