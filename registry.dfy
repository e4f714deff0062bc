/**
 * The in-memory registry of Projeto/system.py: lists of users, categories, items and
 * reservations, plus the user of the current session. The registry's own logic is
 * modelled over the records of the typed models; object identity (`in`, `remove`) is
 * record equality here.
 */
module Registry {
  import opened Wrappers
  import Repository
  import Users
  import Categories
  import SportsItems
  import Reservations

  /** With unique emails, a login succeeds exactly when some stored user has both credentials. */
  lemma LoginSucceedsIff(users: seq<Users.User>, email: string, password: string)
    requires Users.EmailsUnique(users)
    ensures (var f := Users.FindByEmail(users, email); f.Some? && Users.Login(f.value, email, password))
        <==> exists k :: 0 <= k < |users| && users[k].email == email && users[k].password == password
  {
    var f := Users.FindByEmail(users, email);
    if exists k :: 0 <= k < |users| && users[k].email == email && users[k].password == password {
      var k :| 0 <= k < |users| && users[k].email == email && users[k].password == password;
      assert f.Some? && f.value.email == email && f.value in users;
    }
  }

  /** The category filter of `list_items` (any given category object is truthy). */
  function InCategory(categoryId: int): SportsItems.ItemRecord -> bool {
    (i: SportsItems.ItemRecord) => i.categoryId == Some(categoryId)
  }

  function Available(): SportsItems.ItemRecord -> bool {
    (i: SportsItems.ItemRecord) => i.available
  }

  /** `list_items`: the category filter when a category is given, then availability when asked. */
  function ListItems(items: seq<SportsItems.ItemRecord>, category: Option<int>, availableOnly: bool): (r: seq<SportsItems.ItemRecord>)
    ensures forall k :: 0 <= k < |r| ==> r[k] in items
    ensures category.Some? ==> forall k :: 0 <= k < |r| ==> r[k].categoryId == category
    ensures availableOnly ==> forall k :: 0 <= k < |r| ==> r[k].available
    ensures category.None? && !availableOnly ==> r == items
  {
    var byCategory := if category.Some? then Repository.Filter(items, InCategory(category.value)) else items;
    if availableOnly then Repository.Filter(byCategory, Available()) else byCategory
  }

  /** Every stored item passing both requested filters is listed, and nothing else. */
  lemma ListItemsMembership(items: seq<SportsItems.ItemRecord>, category: Option<int>, availableOnly: bool,
                            x: SportsItems.ItemRecord)
    ensures x in ListItems(items, category, availableOnly)
        <==> x in items && (category.Some? ==> x.categoryId == category) && (availableOnly ==> x.available)
  {
    var byCategory := if category.Some? then Repository.Filter(items, InCategory(category.value)) else items;
    if category.Some? {
      Repository.FilterMembership(items, InCategory(category.value), x);
    }
    Repository.FilterMembership(byCategory, Available(), x);
  }

  function OfClient(clientId: int): Reservations.ReservationRecord -> bool {
    (r: Reservations.ReservationRecord) => r.clientId == clientId
  }

  /** `list_reservations`: the client filter when a client is given, then the state filter when non-empty. */
  function ListReservations(rs: seq<Reservations.ReservationRecord>, client: Option<int>, state: string)
    : (r: seq<Reservations.ReservationRecord>)
    ensures forall k :: 0 <= k < |r| ==> r[k] in rs
    ensures client.Some? ==> forall k :: 0 <= k < |r| ==> r[k].clientId == client.value
    ensures state != "" ==> forall k :: 0 <= k < |r| ==> Reservations.StateName(r[k].state) == state
    ensures client.None? && state == "" ==> r == rs
  {
    var byClient := if client.Some? then Repository.Filter(rs, OfClient(client.value)) else rs;
    if state != "" then Repository.Filter(byClient, Reservations.InState(state)) else byClient
  }

  /** Every stored reservation passing both requested filters is listed, and nothing else. */
  lemma ListReservationsMembership(rs: seq<Reservations.ReservationRecord>, client: Option<int>, state: string,
                                   x: Reservations.ReservationRecord)
    ensures x in ListReservations(rs, client, state)
        <==> x in rs && (client.Some? ==> x.clientId == client.value)
                     && (state != "" ==> Reservations.StateName(x.state) == state)
  {
    var byClient := if client.Some? then Repository.Filter(rs, OfClient(client.value)) else rs;
    if client.Some? {
      Repository.FilterMembership(rs, OfClient(client.value), x);
    }
    Repository.FilterMembership(byClient, Reservations.InState(state), x);
  }

  class System {
    var users: seq<Users.User>
    var categories: seq<Categories.Category>
    var items: seq<SportsItems.ItemRecord>
    var reservations: seq<Reservations.ReservationRecord>
    var currentUser: Option<Users.User>

    /** An empty registry with nobody logged in. */
    constructor ()
      ensures users == [] && categories == [] && items == [] && reservations == [] && currentUser == None
    {
      users := [];
      categories := [];
      items := [];
      reservations := [];
      currentUser := None;
    }

    /** `_find_user_by_email`: scan the users in order and return the first with that email. */
    method FindUserByEmail(email: string) returns (u: Option<Users.User>)
      ensures u == Users.FindByEmail(users, email)
      ensures u.Some? ==> u.value in users && u.value.email == email
      ensures u.None? <==> forall k :: 0 <= k < |users| ==> users[k].email != email
    {
      var k := 0;
      while k < |users|
        invariant 0 <= k <= |users|
        invariant forall j :: 0 <= j < k ==> users[j].email != email
      {
        if users[k].email == email {
          assert Repository.FindIndex(users, Users.Email, email) == Some(k);
          return Some(users[k]);
        }
        k := k + 1;
      }
      return None;
    }

    /** `register_client`: refused when the email is taken; otherwise exactly one client is appended. */
    method RegisterClient(id: int, name: string, email: string, password: string, address: string, phone: string)
      returns (u: Option<Users.User>)
      modifies this
      ensures Users.FindByEmail(old(users), email).Some? ==> u == None && users == old(users)
      ensures Users.FindByEmail(old(users), email).None? ==>
                u == Some(Users.Client(id, name, email, password, address, phone)) && users == old(users) + [u.value]
      ensures old(Users.EmailsUnique(users)) ==> Users.EmailsUnique(users)
      ensures categories == old(categories) && items == old(items) && reservations == old(reservations)
      ensures currentUser == old(currentUser)
    {
      var existing := FindUserByEmail(email);
      if existing.Some? {
        return None;
      }
      u := Some(Users.Client(id, name, email, password, address, phone));
      users := users + [u.value];
    }

    /** `register_admin`: the same unique-email rule for administrators. */
    method RegisterAdmin(id: int, name: string, email: string, password: string, accessLevel: int)
      returns (u: Option<Users.User>)
      modifies this
      ensures Users.FindByEmail(old(users), email).Some? ==> u == None && users == old(users)
      ensures Users.FindByEmail(old(users), email).None? ==>
                u == Some(Users.Administrator(id, name, email, password, accessLevel)) && users == old(users) + [u.value]
      ensures old(Users.EmailsUnique(users)) ==> Users.EmailsUnique(users)
      ensures categories == old(categories) && items == old(items) && reservations == old(reservations)
      ensures currentUser == old(currentUser)
    {
      var existing := FindUserByEmail(email);
      if existing.Some? {
        return None;
      }
      u := Some(Users.Administrator(id, name, email, password, accessLevel));
      users := users + [u.value];
    }

    /** `login`: the user found by email becomes the session's user when the password matches too. */
    method Login(email: string, password: string) returns (u: Option<Users.User>)
      modifies this
      ensures var f := Users.FindByEmail(users, email);
              if f.Some? && Users.Login(f.value, email, password)
              then u == f && currentUser == f
              else u == None && currentUser == old(currentUser)
      ensures users == old(users) && categories == old(categories) && items == old(items)
      ensures reservations == old(reservations)
    {
      var found := FindUserByEmail(email);
      if found.Some? && Users.Login(found.value, email, password) {
        currentUser := found;
        return found;
      }
      return None;
    }

    /** `logout`: nobody is logged in afterwards. */
    method Logout()
      modifies this
      ensures currentUser == None
      ensures users == old(users) && categories == old(categories) && items == old(items)
      ensures reservations == old(reservations)
    {
      currentUser := None;
    }

    /** `create_category`: append the new category and return it. */
    method CreateCategory(c: Categories.Category) returns (r: Categories.Category)
      modifies this
      ensures r == c && categories == old(categories) + [c]
      ensures users == old(users) && items == old(items) && reservations == old(reservations)
      ensures currentUser == old(currentUser)
    {
      categories := categories + [c];
      r := c;
    }

    /** `create_item`: append the new item and return it. */
    method CreateItem(item: SportsItems.ItemRecord) returns (r: SportsItems.ItemRecord)
      modifies this
      ensures r == item && items == old(items) + [item]
      ensures users == old(users) && categories == old(categories) && reservations == old(reservations)
      ensures currentUser == old(currentUser)
    {
      items := items + [item];
      r := item;
    }

    /** `remove_item`: false and no change when the item is not listed; otherwise its first occurrence goes. */
    method RemoveItem(item: SportsItems.ItemRecord) returns (removed: bool)
      modifies this
      ensures removed == (item in old(items))
      ensures items == Repository.RemoveFirst(old(items), item)
      ensures users == old(users) && categories == old(categories) && reservations == old(reservations)
      ensures currentUser == old(currentUser)
    {
      if item in items {
        items := Repository.RemoveFirst(items, item);
        return true;
      }
      return false;
    }

    /** `create_reservation`: append the new reservation and return it. */
    method CreateReservation(r: Reservations.ReservationRecord) returns (created: Reservations.ReservationRecord)
      modifies this
      ensures created == r && reservations == old(reservations) + [r]
      ensures users == old(users) && categories == old(categories) && items == old(items)
      ensures currentUser == old(currentUser)
    {
      reservations := reservations + [r];
      created := r;
    }

    /** `get_reservation_by_id`: scan the reservations in order and return the first with that id. */
    method GetReservationById(id: int) returns (r: Option<Reservations.ReservationRecord>)
      ensures r == Reservations.FindById(reservations, id)
      ensures r.Some? ==> r.value in reservations && r.value.id == id
      ensures r.None? <==> forall k :: 0 <= k < |reservations| ==> reservations[k].id != id
    {
      var k := 0;
      while k < |reservations|
        invariant 0 <= k <= |reservations|
        invariant forall j :: 0 <= j < k ==> reservations[j].id != id
      {
        if reservations[k].id == id {
          assert Repository.FindIndex(reservations, Reservations.Id, id) == Some(k);
          return Some(reservations[k]);
        }
        k := k + 1;
      }
      return None;
    }
  }
}
