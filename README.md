# BookingArtigosDesportivos in Dafny

A model of a sports-equipment rental system. Clients reserve items, such as rackets and balls, for a time interval. Administrators manage items, categories and reservations. The model covers the system's core logic and its rules:

- **The persisted models** (`Projeto/models/*.py`): sports items, categories, users and reservations, each stored as an ordered list of records.
- **The reservation life cycle**: Pending → Confirmed → Completed, with Cancelled reachable from Pending and Confirmed.
- **The availability invariant that ties reservations to items**: an item is unavailable exactly when a Pending or Confirmed reservation holds it.
- **Three in-memory front ends**:
  - the registry of `Projeto/system.py`;
  - the Portuguese service layer of `Projeto/services.py` over the object model of `Projeto/models.py`;
  - the tuple-based prototype in `system.py`.
- **The registration validators** of the login dialog, and the order in which the dialog applies them.

Files, one module each:

| file | module | models |
|---|---|---|
| wrappers.dfy | Wrappers | `Option`, `Result`, Python truthiness of an optional id filter |
| json.dfy | Json | the JSON values a record is stored as; `data[k]` and `data.get(k, default)` |
| repository.dfy | Repository | the record-store pattern every model shares: first match, save (replace or append), delete, next id, filters, `list.remove` |
| sports_item.dfy | SportsItems | `Projeto/models/sports_item.py` |
| category.dfy | Categories | `Projeto/models/category.py` |
| user.dfy | Users | `Projeto/models/user.py` |
| reservation.dfy | Reservations | `Projeto/models/reservation.py` and the availability invariant |
| registry.dfy | Registry | `Projeto/system.py` |
| modelos.dfy | Modelos | `Projeto/models.py` |
| servicos.dfy | Servicos | `Projeto/services.py` |
| booking.dfy | Booking | `system.py` |
| validation.dfy | Validation | the validators and the registration checks of `Projeto/Views/login_view.py` |

**How the source maps to Dafny:**

- **Stores.** Each JSON file is a small class with a `rows: seq<...>` field. `save` is `Repository.Upsert`, proved against the loop that performs it (`Repository.SaveRow`).
- **Objects the source updates in place** are classes whose methods name what they modify:
  - `SportsItem` and `Reservation`;
  - the registry and service systems;
  - the `Projeto/models.py` objects.
- **Objects never mutated** are datatypes: categories, users, and the tuples of `system.py`.
- **Numbers and dates.** Dates are integer seconds, and prices and totals are `real`. The duration in hours is `(end - start) / 3600`.

**The availability invariant** is `Reservations.AvailabilityInvariant`. It is stated over the item file and the reservation file together:

- ids are unique in both files;
- an active reservation holds each id at most once;
- two active reservations hold disjoint ids;
- an item is unavailable exactly when an active reservation holds it.

It holds under these conditions:

- `add_item`, `remove_item`, `confirm`, `cancel` and `complete` each preserve it when applied to an active, saved reservation and a freshly loaded item. The lemmas are `AddPreservesInvariant`, `RemovePreservesInvariant`, `ConfirmPreservesInvariant` and `ReleasePreservesInvariant`.
- `create` preserves it (`CreatePreservesInvariant`).
- The methods of `Reservation` carry it in their postconditions.

**Where the code and its own description differ, the model follows the code:**

- **`Category.delete`** does not check for assigned items. Its items are left pointing at an id that no longer resolves (`Categories.DeleteLeavesItemsDangling`).
- **`add_item` and `remove_item`** have no state guard. They also run on a Cancelled or Completed reservation. The invariant is promised only for active reservations, because on the others these calls break it.
- **`Reservation.create`** does not check that the end is after the start. `criar_reserva` in `Projeto/services.py` does.
- **`validate_phone` and `validate_email`** also accept one trailing newline. A regular expression anchored with `$` matches just before a final newline.

## Model

| member | source | states |
|---|---|---|
| Repository.FindIndex | Projeto/models/sports_item.py:251-265 | the position found holds the id and no earlier record does; None means no record holds it |
| Repository.Find | Projeto/models/sports_item.py:251-265 | `find_by_id`: None exactly when no record has the id; otherwise the first record with that id |
| Repository.Upsert | Projeto/models/sports_item.py:178-196 | `save`: same length when the id is stored, append otherwise; every record with another id is untouched; the saved record is present |
| Repository.SaveRow | Projeto/models/sports_item.py:185-196 | the scan-and-replace loop of `save` computes exactly `Upsert` |
| Repository.FindAfterUpsert | Projeto/models/sports_item.py:185-196 | after `save`, `find_by_id` returns the saved record |
| Repository.FindOtherAfterUpsert | Projeto/models/sports_item.py:185-196 | `save` leaves `find_by_id` unchanged for every other id |
| Repository.UpsertKeepsUnique | Projeto/models/sports_item.py:185-196 | `save` keeps ids unique |
| Repository.UpsertAt | Projeto/models/sports_item.py:185-196 | with unique ids, `save` overwrites the position that holds the id |
| Repository.FindIndexUnique | Projeto/models/sports_item.py:261-265 | with unique ids, a record is found at its own position |
| Repository.Filter | Projeto/models/sports_item.py:237-248 | a comprehension with a condition: only passing records of the list, never more records than the list |
| Repository.FilterMembership | Projeto/models/sports_item.py:237-248 | a record is kept exactly when it is in the list and passes |
| Repository.FilterCount | Projeto/models/sports_item.py:237-248 | each passing record is kept as often as the list holds it, a failing one never |
| Repository.FilterConcat | Projeto/models/sports_item.py:237-248 | filtering works piecewise, so the original order is kept |
| Repository.FilterAll | Projeto/models/sports_item.py:237-248 | a filter everything passes keeps the whole list |
| Repository.FilterTwice | Projeto/models/sports_item.py:237-248 | two filters in a row keep what passes both |
| Repository.Delete | Projeto/models/sports_item.py:204-206 | `delete`: no record with that id remains |
| Repository.DeleteKeepsOthers | Projeto/models/sports_item.py:204-206 | `delete` keeps every record with another id, as often as before |
| Repository.DeleteAbsent | Projeto/models/sports_item.py:204-206 | deleting an id that is not stored changes nothing |
| Repository.MaxKey | Projeto/models/sports_item.py:218-221 | the largest id: no id exceeds it and some record carries it |
| Repository.NextId | Projeto/models/reservation.py:348-351 | `get_next_id`: the base value on an empty list, otherwise one more than a stored id and above every stored id |
| Repository.SaveNewAppends | Projeto/models/sports_item.py:323-326 | a record with the next id is appended by `save` and keeps ids unique |
| Repository.RemoveFirst | Projeto/system.py:57-63 | `list.remove`: an absent value changes nothing; otherwise exactly its first occurrence goes and the rest keep their order |
| Json.GetInt | Projeto/models/sports_item.py:296-303 | `data[key]` as an int: fails with a missing key or a value of another kind |
| Json.GetStr | Projeto/models/sports_item.py:296-303 | `data[key]` as a string, with the same failures |
| Json.GetNum | Projeto/models/sports_item.py:296-303 | `data[key]` as a number; an int reads as its real value |
| Json.GetNumOr | Projeto/models/reservation.py:425-433 | `data.get(key, default)` for a number |
| Json.GetBoolOr | Projeto/models/sports_item.py:296-303 | `data.get(key, default)` for a flag |
| Json.GetStrOr | Projeto/models/category.py:198-202 | `data.get(key, default)` for a string |
| Json.GetOptInt | Projeto/models/sports_item.py:296-303 | `data.get(key)` for an optional id: missing or null reads as None |
| Json.OptIntValue | Projeto/models/sports_item.py:128-135 | None is written as null, an id as that int |
| Json.IntList | Projeto/models/reservation.py:265-273 | an id list is written as a JSON list of the same ints, in order |
| Json.DecodeIntList | Projeto/models/reservation.py:425-433 | reading back a written id list gives the same list |
| Json.GetIntsOr | Projeto/models/reservation.py:425-433 | `data.get("item_ids", [])`: the default when missing, a failure for a non-list |
| Json.GetIntsOrIntList | Projeto/models/reservation.py:425-433 | a stored id list reads back as itself |
| SportsItems.FromDict | Projeto/models/sports_item.py:296-303 | `from_dict`: a missing id fails; a missing `available` reads as true, a missing `category_id` as None |
| SportsItems.ToDict | Projeto/models/sports_item.py:119-135 | `to_dict`: exactly the six keys, the id and the flag as stored, null for the category exactly when there is none |
| SportsItems.NextId | Projeto/models/sports_item.py:211-221 | `get_next_id`: 1 on an empty file, otherwise above every stored id and one more than some stored id |
| SportsItems.FindById | Projeto/models/sports_item.py:251-265 | `find_by_id`: the FIRST stored item with that id (no earlier one has it), None exactly when there is none |
| SportsItems.FromDictToDict | Projeto/models/sports_item.py:128-135 | `from_dict(to_dict(x))` gives back every field |
| SportsItems.FromDictDefaults | Projeto/models/sports_item.py:296-303 | a record stored without `available` and `category_id` reads back available and without category |
| SportsItems.GetAll | Projeto/models/sports_item.py:237-248 | `get_all`: every result passes the truthy category filter and, when asked, is available; with no filter the whole file |
| SportsItems.GetAllMembership | Projeto/models/sports_item.py:237-248 | an item is listed exactly when it is stored and passes both filters |
| SportsItems.GetAllConcat | Projeto/models/sports_item.py:237-248 | listing keeps the file's order |
| SportsItems.FindByCategory | Projeto/models/sports_item.py:280 | `find_by_category(c)` is `get_all(category_id=c)`: items of category c, or every item for the falsy id 0 |
| SportsItems.FindByCategoryCount | Projeto/models/sports_item.py:280 | every stored item of the category is listed as often as it is stored |
| SportsItems.SportsItem.constructor | Projeto/models/sports_item.py:25-43 | `__init__` stores every field as given |
| SportsItems.SportsItem.CheckAvailability | Projeto/models/sports_item.py:96-103 | `check_availability`: exactly the availability the record stores |
| SportsItems.SportsItem.SetAvailable | Projeto/models/sports_item.py:105-115 | afterwards `check_availability()` is exactly `b`, and no other field changes |
| SportsItems.SportsItem.Save | Projeto/models/sports_item.py:178-196 | the file becomes `Upsert` of this item's record |
| SportsItems.SportsItem.Delete | Projeto/models/sports_item.py:198-206 | the file becomes `Delete` of this item's id |
| SportsItems.SportsItem.Load | Projeto/models/sports_item.py:251-265 | null exactly when no record has the id, otherwise a new object holding the first match |
| SportsItems.SportsItem.Create | Projeto/models/sports_item.py:306-326 | a new available item with id `get_next_id()`, appended to the file; ids stay unique |
| Categories.FromDict | Projeto/models/category.py:186-202 | `from_dict`: succeeds exactly when id and name are present with the right kinds; the description defaults to "" |
| Categories.ToDict | Projeto/models/category.py:56-69 | `to_dict`: exactly the keys id, name and description, with the stored id and name |
| Categories.NextId | Projeto/models/category.py:145-155 | `get_next_id`: 1 on an empty file, otherwise above every stored id and one more than some stored id |
| Categories.FindById | Projeto/models/category.py:169-183 | `find_by_id`: the FIRST stored category with that id (no earlier one has it), None exactly when there is none |
| Categories.FromDictToDict | Projeto/models/category.py:56-69 | `from_dict(to_dict(c))` gives back id, name and description |
| Categories.Save | Projeto/models/category.py:112-130 | upsert by id; afterwards `find_by_id` returns the category |
| Categories.Delete | Projeto/models/category.py:132-140 | every record with the id goes; afterwards `find_by_id` finds nothing |
| Categories.Create | Projeto/models/category.py:205-221 | a category with id `get_next_id()`, not yet stored, appended |
| Categories.GetItems | Projeto/models/category.py:225-235 | `get_items`: for a truthy id, only items of this category |
| Categories.GetItemsExactly | Projeto/models/category.py:225-235 | for a truthy id, exactly the stored items of this category |
| Categories.GetItemsZeroId | Projeto/models/category.py:225-235 | for id 0 the falsy filter lists every item |
| Categories.CategoryOf | Projeto/models/sports_item.py:80-92 | the `category` property: None exactly when `category_id` is falsy or no stored category has it; otherwise the first stored category with that id |
| Categories.DeleteLeavesItemsDangling | Projeto/models/category.py:132-140 | after a delete, an item of that category resolves to no category |
| Users.GetType | Projeto/models/user.py:171-172 | "client" exactly for a client, "admin" exactly for an administrator (also lines 212-213) |
| Users.Login | Projeto/models/user.py:50-52 | `login`: accepted exactly when both the email and the password match |
| Users.ToDict | Projeto/models/user.py:174-183 | `to_dict`: the client keys with address and phone, the administrator keys with access_level (lines 215-223), id and email as stored |
| Users.NextId | Projeto/models/user.py:108-111 | `get_next_id`: 1 on an empty file, otherwise above every stored id and one more than some stored id |
| Users.FindById | Projeto/models/user.py:123-129 | `find_by_id`: the FIRST stored user with that id (no earlier one has it), None exactly when there is none |
| Users.FromDict | Projeto/models/user.py:132-151 | dispatch on the type tag: missing tag fails, an unknown tag gives None, a built user's kind matches the tag |
| Users.FromDictToDict | Projeto/models/user.py:174-183 | `from_dict(to_dict(u))` gives back the same user with the same type tag, for clients and administrators (also lines 215-223) |
| Users.FindByEmail | Projeto/models/user.py:114-120 | the FIRST stored user with that email (no earlier user has it), and None exactly when there is none |
| Users.Save | Projeto/models/user.py:64-77 | upsert by id; afterwards `find_by_id` returns the user |
| Users.CreateClient | Projeto/models/user.py:191-197 | a client with id `get_next_id()`, appended to the file |
| Users.CreateAdministrator | Projeto/models/user.py:226-232 | an administrator with id `get_next_id()`, appended to the file |
| Reservations.ParseState | Projeto/models/reservation.py:425-433 | a stored state string reads back as itself; unknown names are kept as unrecognised |
| Reservations.FromDict | Projeto/models/reservation.py:413-433 | `from_dict`: items default to empty, the total to 0.0, the state to Pending; the state read is well formed |
| Reservations.ToDict | Projeto/models/reservation.py:256-273 | `to_dict`: exactly the seven keys, id and client as stored, the state by name |
| Reservations.NextId | Projeto/models/reservation.py:339-351 | `get_next_id`: 101 on an empty file, otherwise above every stored id and one more than some stored id |
| Reservations.FindById | Projeto/models/reservation.py:381-395 | `find_by_id`: the FIRST stored reservation with that id (no earlier one has it), None exactly when there is none |
| Reservations.FromDictToDict | Projeto/models/reservation.py:256-273 | `from_dict(to_dict(r))` gives back id, client, dates, items, total and state |
| Reservations.GetAll | Projeto/models/reservation.py:367-378 | `get_all`: every result passes the truthy client filter and the non-empty state filter; with no filter the whole file |
| Reservations.GetAllMembership | Projeto/models/reservation.py:367-378 | a reservation is listed exactly when it is stored and passes both filters |
| Reservations.GetAllConcat | Projeto/models/reservation.py:367-378 | listing keeps the file's order |
| Reservations.FindByClient | Projeto/models/reservation.py:398-410 | `find_by_client(c)`: a reservation is listed exactly when it is stored and, for a truthy id, belongs to client c; the falsy id 0 lists every reservation |
| Reservations.ClientOf | Projeto/models/reservation.py:97-107 | the `client` property: the first user with the client id, None exactly when there is none |
| Reservations.Hours | Projeto/models/reservation.py:182 | the duration: hours times 3600 is the difference in seconds, non-negative exactly when the end is not before the start |
| Reservations.Total | Projeto/models/reservation.py:182-188 | the total is 0 with no items and non-negative for non-negative prices and durations |
| Reservations.TotalSkipsMissing | Projeto/models/reservation.py:182-188 | a held id whose item no longer exists adds nothing |
| Reservations.TotalAppend | Projeto/models/reservation.py:182-188 | one more existing item adds its price times the hours |
| Reservations.TotalSamePrices | Projeto/models/reservation.py:182-188 | the total depends only on the prices of the held items |
| Reservations.TotalIgnoresAvailability | Projeto/models/reservation.py:182-188 | changing an item's availability leaves every total unchanged |
| Reservations.HeldBySplit | Projeto/models/sports_item.py:105-115 | an item is held exactly when the reservation at a position or another one holds it |
| Reservations.HeldByOtherReplace | Projeto/models/sports_item.py:105-115 | replacing one reservation leaves holding by the others unchanged |
| Reservations.HeldByAfterReplace | Projeto/models/sports_item.py:105-115 | holding after replacing one reservation |
| Reservations.HeldByNoOther | Projeto/models/sports_item.py:105-115 | under the invariant, an item held by one active reservation is held by no other |
| Reservations.ReplacePreserves | Projeto/models/sports_item.py:105-115 | the invariant survives replacing one reservation and setting one item's flag consistently |
| Reservations.AddPreservesInvariant | Projeto/models/reservation.py:137-149 | `add_item` on an active reservation keeps the availability invariant |
| Reservations.RemovePreservesInvariant | Projeto/models/reservation.py:160-169 | `remove_item` on an active reservation keeps the availability invariant |
| Reservations.ConfirmPreservesInvariant | Projeto/models/reservation.py:202-206 | `confirm` keeps the availability invariant |
| Reservations.RemoveFirstUnique | Projeto/models/reservation.py:160-169 | removing a held id from a list without repetitions leaves exactly the other ids |
| Reservations.SetAvailability | Projeto/models/reservation.py:224-225 | one item's flag set and saved: same ids in the same places, the item then found with the new flag, no change when it is gone, and with unique ids exactly that item changes |
| Reservations.Release | Projeto/models/reservation.py:222-225 | the release loop keeps every id in its place and never makes an available item unavailable |
| Reservations.ReleaseEffect | Projeto/models/reservation.py:218-229 | the release loop sets exactly the held items available and changes nothing else |
| Reservations.SaveAvailableIsSetAvailability | Projeto/models/reservation.py:224-227 | loading an item, setting it available and saving it is one availability update on the file |
| Reservations.ReleasePreservesInvariant | Projeto/models/reservation.py:218-252 | `cancel` and `complete` keep the availability invariant |
| Reservations.CreatePreservesInvariant | Projeto/models/reservation.py:452-455 | a new empty Pending reservation keeps the availability invariant |
| Reservations.HeldItemUnavailable | Projeto/models/sports_item.py:105-115 | no double claim: an item held by an active reservation is unavailable |
| Reservations.Reservation.constructor | Projeto/models/reservation.py:34-56 | `__init__` stores every field as given |
| Reservations.Reservation.Save | Projeto/models/reservation.py:316-334 | the file becomes `Upsert` of this reservation's record, which is then found by id |
| Reservations.Reservation.CalculateTotal | Projeto/models/reservation.py:171-188 | stores and returns `Total` over the held ids for the reservation's hours |
| Reservations.Reservation.SaveAll | Projeto/models/reservation.py:145-148 | the shared tail of `add_item`/`remove_item`: item saved, total recomputed, reservation saved |
| Reservations.Reservation.AddItem | Projeto/models/reservation.py:124-149 | true exactly for an available, not yet held item: id appended, item saved unavailable, total and file updated; otherwise no change; keeps the invariant on an active reservation |
| Reservations.Reservation.RemoveItem | Projeto/models/reservation.py:151-169 | for a held id: first occurrence removed, item saved available, total and file updated; otherwise no change; keeps the invariant on an active reservation |
| Reservations.Reservation.Confirm | Projeto/models/reservation.py:192-206 | true exactly for a Pending reservation holding an item, which becomes Confirmed and is saved; otherwise no change; keeps the invariant |
| Reservations.Reservation.ReleaseOne | Projeto/models/reservation.py:222-225 | one step of the release loop: the item file becomes `SetAvailability` of the id, unchanged when the item is gone |
| Reservations.Reservation.ReleaseHeld | Projeto/models/reservation.py:224-227 | the loop over held ids leaves the item file as `Release` of it |
| Reservations.Reservation.Cancel | Projeto/models/reservation.py:208-229 | true exactly from Pending or Confirmed: Cancelled, items released, saved; a second cancel is false; keeps the invariant |
| Reservations.Reservation.Complete | Projeto/models/reservation.py:231-252 | true exactly from Confirmed: Completed, items released, saved; keeps the invariant |
| Reservations.Reservation.Load | Projeto/models/reservation.py:381-395 | null exactly when no record has the id, otherwise a new object holding the first match |
| Reservations.Reservation.Create | Projeto/models/reservation.py:436-455 | a Pending reservation without items and total 0.0, with a fresh id (101 on an empty file), appended |
| Registry.LoginSucceedsIff | Projeto/system.py:32-37 | with unique emails, the email lookup plus `User.login` succeeds exactly when a stored user has both credentials |
| Registry.ListItems | Projeto/system.py:68-74 | `list_items`: stored items only, of the category when one is given, available when asked; with no filter the whole list |
| Registry.ListItemsMembership | Projeto/system.py:68-74 | an item is listed exactly when it is stored and passes both filters |
| Registry.ListReservations | Projeto/system.py:83-89 | `list_reservations`: stored reservations only, of the client when given, in the state when non-empty |
| Registry.ListReservationsMembership | Projeto/system.py:83-89 | a reservation is listed exactly when it is stored and passes both filters |
| Registry.System.constructor | Projeto/system.py:4-9 | everything empty, nobody logged in |
| Registry.System.FindUserByEmail | Projeto/system.py:26-30 | the loop returns the first user with that email, None exactly when there is none |
| Registry.System.RegisterClient | Projeto/system.py:12-17 | None and no change when the email is taken; otherwise exactly one client appended; emails stay unique |
| Registry.System.RegisterAdmin | Projeto/system.py:19-24 | the same unique-email rule for administrators |
| Registry.System.Login | Projeto/system.py:32-37 | the user and the session's user when the credentials match; otherwise None and the session unchanged |
| Registry.System.Logout | Projeto/system.py:39-40 | nobody is logged in afterwards, nothing else changes |
| Registry.System.CreateCategory | Projeto/system.py:47-50 | the category is appended and returned |
| Registry.System.CreateItem | Projeto/system.py:52-55 | the item is appended and returned |
| Registry.System.RemoveItem | Projeto/system.py:57-63 | false and no change for an absent item; otherwise true and its first occurrence removed |
| Registry.System.CreateReservation | Projeto/system.py:77-81 | the reservation is appended and returned |
| Registry.System.GetReservationById | Projeto/system.py:91-95 | the loop returns the first reservation with that id, None exactly when there is none |
| Modelos.Categoria.constructor | Projeto/models.py:41-45 | a category starts without articles |
| Modelos.Categoria.AdicionarArtigo | Projeto/models.py:47-48 | the article joins the end of the list |
| Modelos.ArtigoDesportivo.constructor | Projeto/models.py:52-58 | stores every field as given |
| Modelos.ArtigoDesportivo.VerificarDisponibilidade | Projeto/models.py:60-61 | true exactly when the article is available |
| Modelos.Cliente.constructor | Projeto/models.py:15-19 | a client starts with an empty history |
| Modelos.Cliente.FazerReserva | Projeto/models.py:21-22 | the reservation joins the end of the history |
| Modelos.Cliente.ConsultarHistorico | Projeto/models.py:24-25 | the history in the order the reservations were made |
| Modelos.Administrador.constructor | Projeto/models.py:29-31 | stores id, name, email and access level as given |
| Modelos.Administrador.GerirStock | Projeto/models.py:33-34 | the article's availability becomes the given value |
| Modelos.Administrador.CancelarReserva | Projeto/models.py:36-37 | the reservation becomes Cancelada from any state |
| Modelos.Soma | Projeto/models.py:74-80 | the total is 0 without articles and non-negative for non-negative prices and hours |
| Modelos.SomaConcat | Projeto/models.py:74-80 | the total is additive over the article list |
| Modelos.SomaScales | Projeto/models.py:74-80 | the total is the hours times the sum of the prices |
| Modelos.Reserva.constructor | Projeto/models.py:65-72 | a new reservation is Pendente with total 0.0 |
| Modelos.Reserva.CalcularTotal | Projeto/models.py:74-80 | the accumulation loop stores and returns `Soma` over the articles |
| Modelos.Reserva.Confirmar | Projeto/models.py:82-83 | the reservation becomes Confirmada from any state |
| Servicos.Disponiveis | Projeto/services.py:94-98 | only available articles of the list, never more than the list |
| Servicos.DisponiveisMembership | Projeto/services.py:94-98 | an article is kept exactly when it is in the list and available |
| Servicos.ArtigosDe | Projeto/services.py:133-139 | the articles found for the ids, all of them stored |
| Servicos.ArtigosDeAllFound | Projeto/services.py:133-139 | when every id names an article, one article per id, in order |
| Servicos.SistemaReservas.constructor | Projeto/services.py:17-79 | the sample data: two available articles of category 1, one client, one administrator, no reservations, counter 1 |
| Servicos.SistemaReservas.Artigo | Projeto/services.py:135 | `artigos.get(id)`: a stored article with that id, None exactly when there is none |
| Servicos.SistemaReservas.LoginCliente | Projeto/services.py:82-84 | the client registered under the email, None exactly when there is none |
| Servicos.SistemaReservas.LoginAdmin | Projeto/services.py:86-88 | the administrator registered under the email, None exactly when there is none |
| Servicos.SistemaReservas.ListarArtigos | Projeto/services.py:94-98 | every article, or only stored available ones |
| Servicos.SistemaReservas.ListarArtigosMembership | Projeto/services.py:94-98 | an article is listed as available exactly when it is stored and available |
| Servicos.SistemaReservas.ListarArtigosPorCategoria | Projeto/services.py:100-106 | only stored articles of the category, available when asked |
| Servicos.SistemaReservas.ListarArtigosPorCategoriaMembership | Projeto/services.py:100-106 | exactly the stored articles of the category, restricted to available ones when asked |
| Servicos.SistemaReservas.GerirStock | Projeto/services.py:108-113 | false for an unknown id; otherwise that article's availability is set and no other article changes |
| Servicos.SistemaReservas.EscolherArtigos | Projeto/services.py:133-139 | the collecting loop succeeds exactly when every id names an available article, with one article per id, in order |
| Servicos.SistemaReservas.NovaReserva | Projeto/services.py:141-150 | a new Confirmada reservation whose total is `Soma` over its articles |
| Servicos.SistemaReservas.CriarReserva | Projeto/services.py:116-158 | null and no change for bad dates or any missing or unavailable article; otherwise a Confirmada reservation with the next id and its total, stored under that id, counter up by one, client history extended, articles untouched |
| Servicos.SistemaReservas.Guardar | Projeto/services.py:151-153 | the new reservation is stored under the next id and the counter moves on by one |
| Servicos.SistemaReservas.CancelarReserva | Projeto/services.py:166-171 | false for an unknown id; otherwise that reservation becomes Cancelada from any state; no other reservation changes state and no total changes |
| Booking.Copies | system.py:73-78 | n copies of a value |
| Booking.DisponiveisMembership | system.py:62-68 | an article is available exactly when it is stored with a positive quantity |
| Booking.BookingSystem.constructor | system.py:6-11 | everything empty, nobody authenticated |
| Booking.BookingSystem.Login | system.py:16-24 | true exactly when the pair is registered, and then that pair is authenticated; otherwise nothing changes |
| Booking.BookingSystem.AdicionarUtilizador | system.py:26-28 | the pair is appended |
| Booking.BookingSystem.Logout | system.py:30-32 | nobody is authenticated afterwards |
| Booking.BookingSystem.AdicionarCategoria | system.py:36-39 | the pair is appended and returned |
| Booking.BookingSystem.AdicionarArtigo | system.py:43-46 | the pair is appended and returned |
| Booking.BookingSystem.RemoverArtigo | system.py:48-57 | true exactly when some article has the name, and then only the first such article goes; otherwise no change |
| Booking.BookingSystem.ListaArtigos | system.py:59-60 | every article, in order |
| Booking.BookingSystem.ArtigosDisponiveis | system.py:62-68 | exactly the articles with a positive quantity, in order |
| Booking.BookingSystem.CriarReserva | system.py:73-78 | one copy of the reservation per article with that name and enough quantity; quantities unchanged |
| Validation.LastIndex | Projeto/Views/login_view.py:249 | the last position of a character, None exactly when absent |
| Validation.EmailBodySound | Projeto/Views/login_view.py:249-250 | every text the computed check accepts has the pattern's shape |
| Validation.FirstAtIs | Projeto/Views/login_view.py:249 | an `@` preceded only by local-part characters is the first `@` |
| Validation.LastDotIs | Projeto/Views/login_view.py:249 | a `.` followed only by letters is the last `.` |
| Validation.EmailBodyComplete | Projeto/Views/login_view.py:249-250 | every text of the pattern's shape is accepted by the computed check |
| Validation.EmailBodyIff | Projeto/Views/login_view.py:249-250 | the computed check accepts exactly the texts of the pattern's shape |
| Validation.ValidateEmail | Projeto/Views/login_view.py:249-250 | `validate_email` is true exactly when the text, or the text before one final newline, has the shape `local@domain.tld` |
| Validation.ValidEmailHasAt | Projeto/Views/login_view.py:249-250 | a valid email holds an `@` |
| Validation.RemoveSpaces | Projeto/Views/login_view.py:269 | no space remains, never longer than before |
| Validation.RemoveSpacesCount | Projeto/Views/login_view.py:269 | every other character occurs as often as before |
| Validation.ValidatePhone | Projeto/Views/login_view.py:267-269 | once spaces are gone: valid exactly when nine digits, the first 9, 2 or 3, stand alone or before one final newline |
| Validation.ValidatePhoneIff | Projeto/Views/login_view.py:267-269 | `validate_phone` accepts exactly the numbers that, spaces removed, match `^[923]\d{8}$` (some nine-digit text starting with 9, 2 or 3, optionally followed by a newline) |
| Validation.ValidatePhoneIgnoresSpaces | Projeto/Views/login_view.py:267-269 | a space anywhere does not change the verdict |
| Validation.ValidatePassword | Projeto/Views/login_view.py:287-295 | valid exactly with 8 characters, an upper-case letter, a lower-case letter and a digit; the first failing check, in that order, gives its own message; the message is empty exactly when valid |
| Validation.ValidPasswordHasThreeKinds | Projeto/Views/login_view.py:287-295 | a valid password holds three distinct characters |
| Validation.LeadingSpaces | Projeto/Views/login_view.py:311 | the whitespace run at the start, followed by a non-space |
| Validation.TrailingSpaces | Projeto/Views/login_view.py:311 | the whitespace run at the end, preceded by a non-space |
| Validation.Strip | Projeto/Views/login_view.py:311 | `strip()`: a slice with only whitespace cut on both sides, and no whitespace at either end |
| Validation.NonSpaceAt | Projeto/Views/login_view.py:313 | a text with a word has a non-space character |
| Validation.OneWordAt | Projeto/Views/login_view.py:313 | a non-space character makes a word |
| Validation.OneWordIff | Projeto/Views/login_view.py:313 | `split()` finds a word exactly when some character is not whitespace |
| Validation.TwoWordsWitness | Projeto/Views/login_view.py:313 | two words give two non-space characters with a space between them |
| Validation.TwoWordsSound | Projeto/Views/login_view.py:313 | two words give some space between two non-space characters |
| Validation.TwoWordsAt | Projeto/Views/login_view.py:313 | a space between two non-space characters gives two words |
| Validation.TwoWordsComplete | Projeto/Views/login_view.py:313 | some space between two non-space characters gives two words |
| Validation.TwoWordsIff | Projeto/Views/login_view.py:313 | `len(split()) >= 2` exactly when some space lies between two non-space characters |
| Validation.ValidateName | Projeto/Views/login_view.py:311-315 | valid exactly with 3 characters once stripped and two words; too short first, then not full, each with its own message |
| Validation.Check | Projeto/Views/login_view.py:348-382 | one iff per outcome: each failure is reported exactly when its check fails and every earlier one passes, in the order filled fields, name, email shape, email unused, phone, password, passwords equal; Registered exactly when all pass; the name and password messages are those of their validators |
| Validation.RegisteredKeepsEmailsUnique | Projeto/Views/login_view.py:363-385 | a registration the checks accept keeps emails unique |
| Validation.ConfirmRegister | Projeto/Views/login_view.py:340-385 | the fields are stripped and checked; a client is created only when every check passes; emails stay unique |

## Left out

- Json.GetInt: a present value of another JSON kind, or null, fails with WrongType. Python's `data[key]` hands such a value on unchanged, and the failure would only show later where the value is used. The model keeps each record's fields typed.
- Json.GetStr: the same WrongType failure for a value that is not a string.
- Json.GetNum: the same WrongType failure for null or a value that is not a number.
- Json.GetNumOr: a present null or non-number fails, where `data.get` returns it.
- Json.GetBoolOr: a present non-boolean fails, where `data.get` returns it.
- Json.GetStrOr: a present null or non-string (such as `"state": null`) fails, where `data.get` returns it.
- Json.GetOptInt: a present value that is neither null nor an int fails, where `data.get` returns it.
- Json.GetIntsOr: a present value that is not a list of ints fails, where `data.get` returns it unchanged.
- SportsItems.FromDict: fails on mistyped fields that `from_dict` would store unchanged in the object, because it reads them with the Json getters above.
- Categories.FromDict: succeeds only when id, name and a present description have the expected kinds. `from_dict` accepts values of any kind.
- Users.FromDict: fails on mistyped fields that `from_dict` would store unchanged.
- Reservations.FromDict: fails on a present null or mistyped `total_value` or `state`, which `from_dict` would store unchanged.
- Users.FindByEmail: the user file is a list of `User` values, so it cannot hold a stored row whose type tag is unknown. `from_dict` turns such a row into None, and `find_by_email` then returns None when that row has the email.
- Booking.BookingSystem.Login: the messages printed by `system.py` are not modelled; only the boolean and the state are. The same holds for Logout, RemoverArtigo and ArtigosDisponiveis.
- JSON file I/O is not modelled: `_ensure_file`, `_load_all`, `_save_all`, the directory creation and the handling of unreadable files. Each file is an in-memory list of records. The JSON encoding of a record is modelled as a value.
- Dates are integer seconds. ISO parsing and formatting are not modelled.
- Prices, totals and durations are real numbers, not floats. Floating-point rounding is not modelled.
- Characters follow ASCII classes only. `str.isupper`, `str.islower`, `str.isdigit`, `\d` and `str.isspace` also accept other Unicode characters; the model does not.
- The regular-expression engine is not modelled. Each pattern is written as a character predicate.
- The tkinter views are not modelled. From `Projeto/Views/login_view.py`, only the validators and the registration checks are; the message boxes and the closing of the dialog are left out.
- Registry.System.RegisterClient: takes the new client's id as a parameter. The source call `Client(name, email, password, address, phone)` (`Projeto/system.py`:15) passes five arguments to a constructor that needs six (`Projeto/models/user.py`:157-158), so it raises TypeError and nothing is appended. The model describes the evidently intended registration.
- Registry.System.RegisterAdmin: takes the id as a parameter. The source call `Administrator(name, email, password, access_level)` (`Projeto/system.py`:22) succeeds with every argument shifted one field: the id becomes the name and the email the password. `_find_user_by_email` therefore never finds that administrator by the given email, so the source accepts a second registration with the same email. "Emails stay unique" holds for the intended call, not the written one.
- Registry.System.CreateCategory: takes the category as a value. The source call `Category(name, description)` (`Projeto/system.py`:48) shifts the fields: the id becomes the name, the name the description, and the description is empty.
- Registry.System.CreateItem: takes the item as a value. The source call `SportsItem(name, brand, price_per_hour, category)` (`Projeto/system.py`:53) shifts the fields: the id becomes the name, the name the brand, the brand the price, the price the category, and the item has no category.
- Registry.System.CreateReservation: takes the reservation as a value. The source call `Reservation(client, start_date, end_date)` (`Projeto/system.py`:78) omits the required `end_date` argument of `Projeto/models/reservation.py`:34-35, so it raises TypeError and nothing is appended.
- Registry.System.RemoveItem: stops after removing the item. The source then calls `remove_item` on the item's category, and categories have no such method.
- Registry.System.CreateReservation: does not model the call to `make_reservation`. Clients have no such method.
- Registry.ListItems: compares category ids. The source compares `Category` objects, which the `category` property builds afresh on every access and which define no equality. The model uses record equality for object identity throughout.
- Registry.ListReservations: compares client ids, for the same reason.
- Servicos.SistemaReservas.ListarArtigos: articles are a list in insertion order rather than a dictionary keyed by id. `Valid` keeps their ids unique.
- Servicos.SistemaReservas.CancelarReserva: requires `Valid`, which the constructor establishes and `CriarReserva` keeps.
- `listar_categorias` and `listar_reservas` in `Projeto/services.py` are not modelled. They only return the values of a dictionary. `listar_reservas_cliente` is `consultar_historico` (`Modelos.Cliente.ConsultarHistorico`).
- Reservations.Reservation.ReleaseHeld: calls `find_by_id` on the item file once per held id, as it goes. The source reads the items once before the loop. Each save touches only its own item, so the two give the same file.
- Reservations.Reservation.AddItem: the invariant is promised only for Pending and Confirmed reservations. On a Cancelled or Completed reservation, `add_item` makes a held-looking item unavailable that no active reservation holds. RemoveItem behaves the same way.
- Not modelled: the administrator's availability toggle in the views, which bypasses the invariant, and the clock check against past dates in the client view. Both are view code.
- The `__str__` methods, `Utilizador.login` in `Projeto/models.py` (it always returns True, whatever the credentials) and test_system.py are not modelled.
