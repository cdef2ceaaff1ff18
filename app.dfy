/**
 * The request handlers of app.py that change the module-level dict in place:
 * add_contact inserts, update_contact assigns fields of the stored record,
 * delete_contact pops. Each method leaves the directory exactly as the
 * corresponding function of module Contacts describes. The read-only
 * handlers (get_contacts, get_contact, search_contact) are the functions
 * List, Get and Search of module Contacts, applied to State().
 */
module App {
  import opened Contacts
  import Properties

  class TelephoneDirectory {
    /** The dict `telephone_directory`, by key. */
    var contacts: map<int, Contact>
    /** The dict's keys in iteration order. */
    var order: seq<int>

    function State(): Directory
      reads this
    {
      Directory(contacts, order)
    }

    ghost predicate Valid()
      reads this
    {
      Contacts.Valid(State())
    }

    /** The directory at start-up: `telephone_directory = {}`. */
    constructor ()
      ensures Valid() && State() == Empty
    {
      contacts := map[];
      order := [];
    }

    /**
     * add_contact: answers ValidationFailed and changes nothing when name or
     * phone is missing or empty; otherwise stores the record under
     * `len(directory) + 1` and answers it.
     */
    method AddContact(name: Option<string>, phone: Option<string>) returns (r: Outcome<Contact>)
      requires Valid()
      modifies this
      ensures Valid()
      ensures r.Err? <==> !Present(name) || !Present(phone)
      ensures r.Err? ==> r.error == ValidationFailed && State() == old(State())
      ensures State() == Add(old(State()), name, phone).after
      ensures r == Add(old(State()), name, phone).outcome
      ensures r.Ok? ==> r.value.id == old(|contacts|) + 1 && contacts[r.value.id] == r.value
    {
      if !Present(name) || !Present(phone) {
        return Err(ValidationFailed);
      }
      var id := |contacts| + 1;
      var c := Contact(id, name.value, phone.value);
      if id !in contacts {
        order := order + [id];
      }
      contacts := contacts[id := c];
      r := Ok(c);
    }

    /**
     * update_contact: answers NotFound and changes nothing for an absent id;
     * otherwise assigns the given name, then the given phone, to the stored
     * record and answers it.
     */
    method UpdateContact(id: int, name: Option<string>, phone: Option<string>) returns (r: Outcome<Contact>)
      requires Valid()
      modifies this
      ensures Valid()
      ensures r.Err? <==> id !in old(contacts)
      ensures r.Err? ==> r.error == NotFound && State() == old(State())
      ensures State() == Update(old(State()), id, name, phone).after
      ensures r == Update(old(State()), id, name, phone).outcome
      ensures r.Ok? ==> r.value == contacts[id] && r.value.id == id
    {
      if id !in contacts {
        return Err(NotFound);
      }
      contacts := contacts[id := contacts[id].(name := Merge(name, contacts[id].name))];
      contacts := contacts[id := contacts[id].(phone := Merge(phone, contacts[id].phone))];
      r := Ok(contacts[id]);
    }

    /**
     * delete_contact: pops the record stored under id and answers the
     * confirmation, or answers NotFound and changes nothing.
     */
    method DeleteContact(id: int) returns (r: Outcome<string>)
      requires Valid()
      modifies this
      ensures Valid()
      ensures r.Err? <==> id !in old(contacts)
      ensures r.Err? ==> r.error == NotFound && State() == old(State())
      ensures id !in contacts && contacts.Keys == old(contacts.Keys) - {id}
      ensures State() == Delete(old(State()), id).after
      ensures r == Delete(old(State()), id).outcome
    {
      var popped := if id in contacts then Some(contacts[id]) else None;
      contacts := contacts - {id};
      if popped.None? {
        return Err(NotFound);
      }
      order := Without(order, id);
      r := Ok(DeletedMessage);
    }
  }

  /**
   * A session against one directory: two adds, a delete of the first, and
   * a third add that is given the second record's id and replaces it; the
   * listing afterwards holds the third record alone.
   */
  method CollisionSession() returns (bob: Outcome<Contact>, cid: Outcome<Contact>, remaining: seq<Contact>)
    ensures bob.Ok? && cid.Ok? && bob.value.id == cid.value.id == 2
    ensures remaining == [cid.value] && bob.value !in remaining
  {
    Properties.IdCollisionExample();
    var dir := new TelephoneDirectory();
    var ann := dir.AddContact(Some("Ann"), Some("111"));
    bob := dir.AddContact(Some("Bob"), Some("222"));
    var gone := dir.DeleteContact(1);
    cid := dir.AddContact(Some("Cid"), Some("333"));
    var last := Directory(map[2 := Contact(2, "Cid", "333")], [2]);
    assert dir.State() == last;
    assert List(last) == [Contact(2, "Cid", "333")];
    remaining := List(dir.State());
  }
}
