/**
 * Properties of the telephone directory that relate several handlers, or a
 * handler and the state it leaves: read-your-writes, partial update, delete
 * finality, search completeness, and the id collision that the
 * `len(directory) + 1` rule allows after a deletion.
 */
module Properties {
  import opened Text
  import opened Contacts

  /** A set of keys collected from a sequence without repeats has the sequence's length. */
  lemma {:induction false} DistinctCard(s: seq<int>)
    requires Distinct(s)
    ensures |set k | k in s| == |s|
  {
    if s != [] {
      var init := s[..|s| - 1];
      var last := s[|s| - 1];
      assert Distinct(init);
      DistinctCard(init);
      assert (set k | k in s) == (set k | k in init) + {last};
      forall i | 0 <= i < |init| ensures init[i] != last {
        assert init[i] == s[i];
      }
    }
  }

  /** get_contacts answers every stored record exactly once, and nothing else. */
  lemma ListIsComplete(d: Directory)
    requires Valid(d)
    ensures |List(d)| == |d.contacts|
    ensures forall c :: c in List(d) <==> c.id in d.contacts && d.contacts[c.id] == c
  {
    DistinctCard(d.order);
    assert d.contacts.Keys == set k | k in d.order;
    var l := List(d);
    forall c: Contact | c.id in d.contacts && d.contacts[c.id] == c ensures c in l {
      var i :| 0 <= i < |d.order| && d.order[i] == c.id;
      assert l[i] == c;
    }
  }

  /** The directory at start-up is valid and lists nothing. */
  lemma EmptyIsValid()
    ensures Valid(Empty) && List(Empty) == []
  {
  }

  /**
   * Read-your-writes: after add_contact answers a record, get_contact on its
   * id answers that record and get_contacts lists it.
   */
  lemma AddThenGet(d: Directory, name: Option<string>, phone: Option<string>)
    requires Valid(d)
    requires Add(d, name, phone).outcome.Ok?
    ensures var r := Add(d, name, phone);
      Get(r.after, r.outcome.value.id) == r.outcome && r.outcome.value in List(r.after)
  {
    var r := Add(d, name, phone);
    ListIsComplete(r.after);
  }

  /**
   * A successful add changes only the key `len + 1`: every other record is
   * kept, and the directory grows by one exactly when that key was free.
   */
  lemma AddChangesOneKey(d: Directory, name: Option<string>, phone: Option<string>)
    requires Valid(d)
    requires Add(d, name, phone).outcome.Ok?
    ensures var r := Add(d, name, phone); var id := |d.contacts| + 1;
      && r.after.contacts.Keys == d.contacts.Keys + {id}
      && (forall k :: k in d.contacts && k != id ==> r.after.contacts[k] == d.contacts[k])
      && |r.after.contacts| == (if id in d.contacts then |d.contacts| else |d.contacts| + 1)
      && r.after.order == (if id in d.contacts then d.order else d.order + [id])
  {
  }

  /**
   * update_contact on a stored id merges the given fields over the stored
   * record, keeps its id, and leaves every other record and the order alone.
   */
  lemma UpdateMerges(d: Directory, id: int, name: Option<string>, phone: Option<string>)
    requires Valid(d) && id in d.contacts
    ensures var r := Update(d, id, name, phone); var prev := d.contacts[id];
      && r.outcome == Ok(Contact(id, Merge(name, prev.name), Merge(phone, prev.phone)))
      && Get(r.after, id) == r.outcome
      && (forall k :: k in d.contacts && k != id ==> r.after.contacts[k] == d.contacts[k])
      && r.after.order == d.order
  {
  }

  /** An empty string given to update_contact overwrites the field: update does not validate. */
  lemma UpdateAcceptsEmpty(d: Directory, id: int)
    requires Valid(d) && id in d.contacts
    ensures Get(Update(d, id, Some(""), None).after, id).value.name == ""
    ensures Get(Update(d, id, Some(""), None).after, id).value.phone == d.contacts[id].phone
  {
  }

  /** Keys taken in order from a sequence give their records in the same relative order. */
  lemma {:induction false} EntriesKeepOrder(m: map<int, Contact>, m': map<int, Contact>, ks: seq<int>, ks': seq<int>)
    requires forall i :: 0 <= i < |ks| ==> ks[i] in m' && ks[i] in m && m'[ks[i]] == m[ks[i]]
    requires forall i :: 0 <= i < |ks'| ==> ks'[i] in m'
    requires IsSubsequence(ks, ks')
    ensures IsSubsequence(Entries(m, ks), Entries(m', ks'))
    decreases |ks'|
  {
    var e, e' := Entries(m, ks), Entries(m', ks');
    if ks != [] {
      assert e[0] == m[ks[0]];
      assert Entries(m', ks'[1..]) == e'[1..];
      if IsSubsequence(ks, ks'[1..]) {
        EntriesKeepOrder(m, m', ks, ks'[1..]);
      } else {
        assert Entries(m, ks[1..]) == e[1..];
        EntriesKeepOrder(m, m', ks[1..], ks'[1..]);
      }
    }
  }

  /**
   * Delete finality: after a successful delete, get, update and a second
   * delete of that id all answer NotFound, the directory shrinks by one, and
   * get_contacts lists every other record and only those.
   */
  lemma DeleteIsFinal(d: Directory, id: int, name: Option<string>, phone: Option<string>)
    requires Valid(d) && id in d.contacts
    ensures var after := Delete(d, id).after;
      && Get(after, id) == Err(NotFound)
      && Update(after, id, name, phone).outcome == Err(NotFound)
      && Delete(after, id).outcome == Err(NotFound)
      && |after.contacts| == |d.contacts| - 1
      && (forall k :: k in after.contacts ==> after.contacts[k] == d.contacts[k])
      && (forall c :: c in List(after) <==> c in List(d) && c.id != id)
      && IsSubsequence(List(after), List(d))
  {
    var after := Delete(d, id).after;
    ListIsComplete(d);
    ListIsComplete(after);
    EntriesKeepOrder(after.contacts, d.contacts, after.order, d.order);
  }

  /**
   * Search is case-insensitive on names: a stored record whose name contains
   * the query, as typed, is among the answers.
   */
  lemma SearchFindsName(d: Directory, q: string, k: int)
    requires Valid(d) && q != "" && k in d.contacts
    requires Contains(q, d.contacts[k].name)
    ensures Search(d, Some(q)).Ok? && d.contacts[k] in Search(d, Some(q)).value
  {
    ContainsLower(q, d.contacts[k].name);
    ListIsComplete(d);
  }

  /** Search answers a stored record exactly when the record matches the lowered query. */
  lemma SearchIsExact(d: Directory, q: string, k: int)
    requires Valid(d) && q != "" && k in d.contacts
    ensures Search(d, Some(q)).Ok?
    ensures d.contacts[k] in Search(d, Some(q)).value <==> Matches(d.contacts[k], Lower(q))
  {
    ListIsComplete(d);
  }

  lemma LowerSmith()
    ensures Lower("Smith") == "smith"
  {
    assert Lower("h") == "h";
    assert Lower("th") == "th";
    assert Lower("ith") == "ith";
    assert Lower("mith") == "mith";
  }

  lemma LowerUpperSmith()
    ensures Lower("SMITH") == "smith"
  {
    assert Lower("H") == "h";
    assert Lower("TH") == "th";
    assert Lower("ITH") == "ith";
    assert Lower("MITH") == "mith";
  }

  lemma LowerJones()
    ensures Lower("Jones") == "jones"
  {
    assert Lower("s") == "s";
    assert Lower("es") == "es";
    assert Lower("nes") == "nes";
    assert Lower("ones") == "ones";
  }

  lemma ExampleList()
    ensures var smith := Contact(1, "Smith", "555-0100");
      var jones := Contact(2, "Jones", "555-0199");
      var d := Directory(map[1 := smith, 2 := jones], [1, 2]);
      Valid(d) && List(d) == [smith, jones]
  {
  }

  lemma ExampleFilter()
    ensures var smith := Contact(1, "Smith", "555-0100");
      var jones := Contact(2, "Jones", "555-0199");
      Filter([smith, jones], "smi") == [smith]
  {
    var smith := Contact(1, "Smith", "555-0100");
    var jones := Contact(2, "Jones", "555-0199");
    LowerSmith();
    LowerJones();
    assert "smi" <= "smith";
    assert Matches(smith, "smi");
    MissingChar("smi", "jones", 'i');
    MissingChar("smi", "555-0199", 'i');
    assert !Matches(jones, "smi");
    assert [smith, jones][1..] == [jones];
    assert Filter([jones], "smi") == [];
  }

  /** The running example: "smi" finds Smith and not Jones. */
  lemma SearchExample()
    ensures var smith := Contact(1, "Smith", "555-0100");
      var jones := Contact(2, "Jones", "555-0199");
      var d := Directory(map[1 := smith, 2 := jones], [1, 2]);
      Search(d, Some("smi")) == Ok([smith])
  {
    var smith := Contact(1, "Smith", "555-0100");
    var jones := Contact(2, "Jones", "555-0199");
    var d := Directory(map[1 := smith, 2 := jones], [1, 2]);
    ExampleList();
    ExampleFilter();
    assert Lower("smi") == "smi" by {
      assert Lower("i") == "i";
      assert Lower("mi") == "mi";
    }
    assert Search(d, Some("smi")) == Ok(Filter(List(d), "smi"));
  }

  /** Case does not matter for names: "SMITH" finds a record named "smith". */
  lemma SearchIgnoresCaseExample()
    ensures var c := Contact(1, "smith", "555");
      Search(Directory(map[1 := c], [1]), Some("SMITH")) == Ok([c])
  {
    var c := Contact(1, "smith", "555");
    var d := Directory(map[1 := c], [1]);
    LowerUpperSmith();
    assert Lower("smith") == "smith" by {
      assert Lower("h") == "h";
      assert Lower("th") == "th";
      assert Lower("ith") == "ith";
      assert Lower("mith") == "mith";
    }
    assert "smith" <= "smith";
    assert Matches(c, "smith");
    assert List(d) == [c];
    assert Filter([c], "smith") == [c];
  }

  /** The phone is not lowered: an upper-case letter in a stored phone is never found. */
  lemma PhoneIsCaseSensitive()
    ensures var c := Contact(1, "Ann", "X1");
      Search(Directory(map[1 := c], [1]), Some("X1")) == Ok([])
  {
    var c := Contact(1, "Ann", "X1");
    var d := Directory(map[1 := c], [1]);
    assert Lower("X1") == "x1" by {
      assert Lower("1") == "1";
    }
    MissingChar("x1", Lower("Ann"), 'x');
    MissingChar("x1", "X1", 'x');
    assert List(d) == [c];
  }

  /** The keys are exactly 1..len: no key has been deleted out of the middle. */
  ghost predicate Dense(d: Directory)
  {
    forall k :: k in d.contacts <==> 1 <= k <= |d.contacts|
  }

  /** While the keys are dense, add_contact assigns a fresh id and keeps them dense. */
  lemma DenseAddIsFresh(d: Directory, name: Option<string>, phone: Option<string>)
    requires Valid(d) && Dense(d) && Present(name) && Present(phone)
    ensures var r := Add(d, name, phone);
      && r.outcome.value.id !in d.contacts
      && |r.after.contacts| == |d.contacts| + 1
      && r.after.order == d.order + [r.outcome.value.id]
      && Dense(r.after)
  {
  }

  /**
   * The id collision: in a dense directory of n records, deleting any key
   * k < n and then adding assigns id n, which is still stored; the stored
   * record is overwritten and the directory does not grow.
   */
  lemma DeleteThenAddOverwrites(d: Directory, k: int, name: Option<string>, phone: Option<string>)
    requires Valid(d) && Dense(d) && 1 <= k < |d.contacts|
    requires Present(name) && Present(phone)
    ensures var n := |d.contacts|;
      var mid := Delete(d, k).after;
      var r := Add(mid, name, phone);
      && r.outcome == Ok(Contact(n, name.value, phone.value))
      && n in mid.contacts
      && |r.after.contacts| == |mid.contacts| == n - 1
      && r.after.contacts[n] == Contact(n, name.value, phone.value)
      && (d.contacts[n] in List(r.after) <==> d.contacts[n] == r.outcome.value)
  {
    var n := |d.contacts|;
    var mid := Delete(d, k).after;
    assert mid.contacts == d.contacts - {k};
    assert n in d.contacts && n != k;
    assert n in mid.contacts;
    assert |mid.contacts| == n - 1 by {
      assert mid.contacts.Keys == d.contacts.Keys - {k};
    }
    var c := Contact(n, name.value, phone.value);
    var r := Add(mid, name, phone);
    assert r.outcome == Ok(c);
    assert r.after.contacts == mid.contacts[n := c];
    assert r.after.contacts.Keys == mid.contacts.Keys;
    assert Valid(r.after);
    ListIsComplete(r.after);
  }

  /** The first two adds from start-up assign ids 1 and 2. */
  lemma TwoAdds()
    ensures var s1 := Add(Empty, Some("Ann"), Some("111"));
      var s2 := Add(s1.after, Some("Bob"), Some("222"));
      && s1.outcome == Ok(Contact(1, "Ann", "111"))
      && s2.outcome == Ok(Contact(2, "Bob", "222"))
      && s2.after == Directory(map[1 := Contact(1, "Ann", "111"), 2 := Contact(2, "Bob", "222")], [1, 2])
  {
    var ann := Contact(1, "Ann", "111");
    var bob := Contact(2, "Bob", "222");
    var s1 := Add(Empty, Some("Ann"), Some("111"));
    assert s1.after == Directory(map[1 := ann], [1]);
    assert |map[1 := ann]| == 1;
  }

  /** Deleting 1 from {1: Ann, 2: Bob} and adding Cid gives Cid id 2, overwriting Bob. */
  lemma DeleteOneThenAdd()
    ensures var ann := Contact(1, "Ann", "111");
      var bob := Contact(2, "Bob", "222");
      var s3 := Delete(Directory(map[1 := ann, 2 := bob], [1, 2]), 1);
      var s4 := Add(s3.after, Some("Cid"), Some("333"));
      && s3.after == Directory(map[2 := bob], [2])
      && s4.outcome == Ok(Contact(2, "Cid", "333"))
      && s4.after == Directory(map[2 := Contact(2, "Cid", "333")], [2])
  {
    var ann := Contact(1, "Ann", "111");
    var bob := Contact(2, "Bob", "222");
    var m := map[1 := ann, 2 := bob];
    assert m - {1} == map[2 := bob];
    assert Without([1, 2], 1) == [2] by {
      assert [1, 2][1..] == [2];
      assert Without([2], 1) == [2];
    }
    assert |map[2 := bob]| == 1;
    assert map[2 := bob][2 := Contact(2, "Cid", "333")] == map[2 := Contact(2, "Cid", "333")];
  }

  /**
   * The collision from start-up: add Ann (id 1), add Bob (id 2), delete 1,
   * add Cid. Cid is given id 2 as Bob was, and Bob's record is gone.
   */
  lemma IdCollisionExample()
    ensures var s1 := Add(Empty, Some("Ann"), Some("111"));
      var s2 := Add(s1.after, Some("Bob"), Some("222"));
      var s3 := Delete(s2.after, 1);
      var s4 := Add(s3.after, Some("Cid"), Some("333"));
      && s2.outcome.value.id == s4.outcome.value.id == 2
      && s4.after == Directory(map[2 := Contact(2, "Cid", "333")], [2])
  {
    TwoAdds();
    DeleteOneThenAdd();
  }
}
