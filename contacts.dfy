/**
 * The in-memory telephone directory of app.py as values: the module-level
 * dict `telephone_directory`, and one function per request handler giving
 * the handler's outcome and the directory it leaves behind. The Flask
 * routing and the JSON encoding are not part of this model.
 */
module Contacts {
  import opened Text

  datatype Option<T> = None | Some(value: T)

  /** The stored record `{'id': ..., 'name': ..., 'phone': ...}`. */
  datatype Contact = Contact(id: int, name: string, phone: string)

  /** The two error answers of the handlers. */
  datatype Error = NotFound | ValidationFailed
  {
    /** The HTTP status the handler answers the error with. */
    function Status(): int
    {
      match this
      case NotFound => 404
      case ValidationFailed => 400
    }
  }

  datatype Outcome<T> = Ok(value: T) | Err(error: Error)

  /**
   * The dict `telephone_directory`: its entries, and its keys in the dict's
   * iteration order (insertion order; overwriting a key keeps its place).
   */
  datatype Directory = Directory(contacts: map<int, Contact>, order: seq<int>)

  /** What a handler answers, and the directory after it. */
  datatype Step<T> = Step(after: Directory, outcome: Outcome<T>)

  /** The directory at start-up. */
  const Empty: Directory := Directory(map[], [])

  /** The body of the delete handler's success answer. */
  const DeletedMessage: string := "Contact deleted"

  predicate Distinct(s: seq<int>)
  {
    forall i, j :: 0 <= i < j < |s| ==> s[i] != s[j]
  }

  /**
   * What every reachable directory satisfies: the order lists each key once,
   * every stored record carries its own key as id, and ids start at 1.
   */
  predicate Valid(d: Directory)
  {
    && Distinct(d.order)
    && (forall k :: k in d.order ==> k in d.contacts)
    && (forall k :: k in d.contacts ==> k in d.order && k >= 1 && d.contacts[k].id == k)
  }

  /** Python truthiness of an optional string field: present and non-empty. */
  predicate Present(field: Option<string>)
  {
    field.Some? && field.value != ""
  }

  /** `data.get(key, default)`: the given value if the key is present. */
  function Merge(field: Option<string>, default: string): (r: string)
    ensures field.None? ==> r == default
    ensures field.Some? ==> r == field.value
  {
    match field
    case None => default
    case Some(v) => v
  }

  /** The order with the key x taken out. */
  function Without(s: seq<int>, x: int): (r: seq<int>)
    ensures forall y :: y in r <==> y in s && y != x
    ensures Distinct(s) ==> Distinct(r)
    ensures IsSubsequence(r, s)
  {
    if s == [] then []
    else if s[0] == x then Without(s[1..], x)
    else
      var rest := Without(s[1..], x);
      assert ([s[0]] + rest)[1..] == rest;
      assert Distinct(s) ==> s[0] !in s[1..];
      if Distinct(s) then DistinctCons(s[0], rest); [s[0]] + rest
      else [s[0]] + rest
  }

  lemma DistinctCons(x: int, s: seq<int>)
    requires x !in s && Distinct(s)
    ensures Distinct([x] + s)
  {
    forall i, j | 0 <= i < j < |[x] + s| ensures ([x] + s)[i] != ([x] + s)[j] {
      if i == 0 {
        assert ([x] + s)[j] == s[j - 1];
      }
    }
  }

  /** The records stored under the keys ks, in that order. */
  function Entries(m: map<int, Contact>, ks: seq<int>): (r: seq<Contact>)
    requires forall i :: 0 <= i < |ks| ==> ks[i] in m
    ensures |r| == |ks|
    ensures forall i :: 0 <= i < |ks| ==> r[i] == m[ks[i]]
  {
    if ks == [] then [] else [m[ks[0]]] + Entries(m, ks[1..])
  }

  /** get_contacts: every stored record, in the dict's order. */
  function List(d: Directory): (r: seq<Contact>)
    requires Valid(d)
    ensures |r| == |d.order|
    ensures forall i :: 0 <= i < |r| ==> r[i].id == d.order[i] && d.contacts[r[i].id] == r[i]
  {
    OrderIsStored(d);
    Entries(d.contacts, d.order)
  }

  lemma OrderIsStored(d: Directory)
    requires Valid(d)
    ensures forall i :: 0 <= i < |d.order| ==> d.order[i] in d.contacts
  {
    forall i | 0 <= i < |d.order| ensures d.order[i] in d.contacts {
      assert d.order[i] in d.order;
    }
  }

  /** get_contact: the record stored under id, or NotFound. */
  function Get(d: Directory, id: int): (r: Outcome<Contact>)
    ensures r.Ok? <==> id in d.contacts
    ensures r.Err? ==> r.error == NotFound
    ensures r.Ok? ==> r.value == d.contacts[id]
    ensures Valid(d) && r.Ok? ==> r.value.id == id
  {
    if id in d.contacts then Ok(d.contacts[id]) else Err(NotFound)
  }

  /**
   * add_contact: rejects a missing or empty name or phone; otherwise stores
   * a new record under id `len(directory) + 1`, overwriting any record that
   * already has that key.
   */
  function Add(d: Directory, name: Option<string>, phone: Option<string>): (r: Step<Contact>)
    ensures r.outcome.Err? <==> !Present(name) || !Present(phone)
    ensures r.outcome.Err? ==> r.outcome.error == ValidationFailed && r.after == d
    ensures r.outcome.Ok? ==> r.outcome.value == Contact(|d.contacts| + 1, name.value, phone.value)
    ensures Valid(d) ==> Valid(r.after)
  {
    if !Present(name) || !Present(phone) then
      Step(d, Err(ValidationFailed))
    else
      var id := |d.contacts| + 1;
      var c := Contact(id, name.value, phone.value);
      var order := if id in d.contacts then d.order else d.order + [id];
      Step(Directory(d.contacts[id := c], order), Ok(c))
  }

  /**
   * update_contact: NotFound for an absent id; otherwise each given field
   * overwrites the stored one (even with an empty string) and an absent
   * field keeps its value.
   */
  function Update(d: Directory, id: int, name: Option<string>, phone: Option<string>): (r: Step<Contact>)
    ensures r.outcome.Err? <==> id !in d.contacts
    ensures r.outcome.Err? ==> r.outcome.error == NotFound && r.after == d
    ensures r.outcome.Ok? ==> r.outcome.value.id == d.contacts[id].id
    ensures r.after.order == d.order && r.after.contacts.Keys == d.contacts.Keys
    ensures Valid(d) ==> Valid(r.after)
  {
    if id !in d.contacts then
      Step(d, Err(NotFound))
    else
      var prev := d.contacts[id];
      var c := prev.(name := Merge(name, prev.name), phone := Merge(phone, prev.phone));
      Step(d.(contacts := d.contacts[id := c]), Ok(c))
  }

  /** delete_contact: pops the record stored under id, or answers NotFound. */
  function Delete(d: Directory, id: int): (r: Step<string>)
    ensures r.outcome.Err? <==> id !in d.contacts
    ensures r.outcome.Err? ==> r.outcome.error == NotFound && r.after == d
    ensures r.outcome.Ok? ==> r.outcome.value == DeletedMessage
    ensures r.after.contacts.Keys == d.contacts.Keys - {id}
    ensures IsSubsequence(r.after.order, d.order)
    ensures Valid(d) ==> Valid(r.after)
  {
    if id !in d.contacts then
      SubsequenceReflexive(d.order);
      Step(d, Err(NotFound))
    else
      Step(Directory(d.contacts - {id}, Without(d.order, id)), Ok(DeletedMessage))
  }

  /** The search filter: the lowered query in the lowered name, or in the phone as stored. */
  predicate Matches(c: Contact, query: string)
  {
    Contains(query, Lower(c.name)) || Contains(query, c.phone)
  }

  /** a can be obtained from b by dropping elements, keeping the order of the rest. */
  predicate IsSubsequence<T(==)>(a: seq<T>, b: seq<T>)
    decreases |b|
  {
    a == [] || (b != [] && (IsSubsequence(a, b[1..]) || (a[0] == b[0] && IsSubsequence(a[1..], b[1..]))))
  }

  lemma {:induction false} SubsequenceReflexive<T>(s: seq<T>)
    ensures IsSubsequence(s, s)
    decreases |s|
  {
    if s != [] {
      SubsequenceReflexive(s[1..]);
    }
  }

  /** The list comprehension of search_contact over the records cs. */
  function Filter(cs: seq<Contact>, query: string): (r: seq<Contact>)
    ensures forall c :: c in r <==> c in cs && Matches(c, query)
    ensures IsSubsequence(r, cs)
  {
    if cs == [] then []
    else if Matches(cs[0], query) then [cs[0]] + Filter(cs[1..], query)
    else Filter(cs[1..], query)
  }

  /** The comprehension keeps every matching record as often as it occurs, and no other. */
  lemma {:induction false} FilterKeepsCount(cs: seq<Contact>, query: string)
    ensures forall c :: multiset(Filter(cs, query))[c] == if Matches(c, query) then multiset(cs)[c] else 0
    decreases |cs|
  {
    if cs != [] {
      FilterKeepsCount(cs[1..], query);
      assert cs == [cs[0]] + cs[1..];
    }
  }

  /**
   * search_contact: the query `q` (absent means "") is lowered; an empty
   * query is rejected, otherwise the matching records are answered in the
   * dict's order.
   */
  function Search(d: Directory, q: Option<string>): (r: Outcome<seq<Contact>>)
    requires Valid(d)
    ensures r.Err? <==> !Present(q)
    ensures r.Err? ==> r.error == ValidationFailed
    ensures r.Ok? ==> forall c :: c in r.value <==> c in List(d) && Matches(c, Lower(q.value))
    ensures r.Ok? ==> IsSubsequence(r.value, List(d))
  {
    var query := Lower(Merge(q, ""));
    if query == "" then Err(ValidationFailed) else Ok(Filter(List(d), query))
  }
}
