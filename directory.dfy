/**
 * The address book: an insertion-ordered dictionary from a name string to a
 * record. `Book` is its contents as a value (the records' contents in key
 * order; a contact's key is its name); `AddressBook` is the mutable object.
 */
module Directory {
  import opened Errors
  import opened Text
  import opened Fields
  import opened Records

  type Book = seq<Contact>

  function Key(c: Contact): string
  {
    c.name.value
  }

  /** Dictionary keys are unique. */
  predicate UniqueKeys(b: Book)
  {
    forall i, j :: 0 <= i < j < |b| ==> Key(b[i]) != Key(b[j])
  }

  /** The position of the entry under key `k`. */
  function IndexOfKey(b: Book, k: string): (r: Option<nat>)
    ensures r.Some? ==> r.value < |b| && Key(b[r.value]) == k
    ensures r.Some? ==> forall i :: 0 <= i < r.value ==> Key(b[i]) != k
    ensures r.None? ==> forall i :: 0 <= i < |b| ==> Key(b[i]) != k
  {
    if b == [] then None
    else if Key(b[0]) == k then Some(0)
    else match IndexOfKey(b[1..], k)
      case None => None
      case Some(i) => Some(i + 1)
  }

  /** `data.get(k)`. */
  function Lookup(b: Book, k: string): (r: Option<Contact>)
    ensures r.Some? ==> r.value in b && Key(r.value) == k
    ensures r.None? <==> forall c :: c in b ==> Key(c) != k
  {
    match IndexOfKey(b, k)
    case None => None
    case Some(i) => Some(b[i])
  }

  /** `add_record`: `data[key] = record`; an existing key keeps its position, a new key goes last. */
  function Add(b: Book, c: Contact): (r: Book)
    ensures c in r
    ensures |r| == if Lookup(b, Key(c)).Some? then |b| else |b| + 1
  {
    match IndexOfKey(b, Key(c))
    case Some(i) =>
      assert b[i := c][i] == c;
      b[i := c]
    case None => b + [c]
  }

  /** `remove_record`: `data.pop(key, None)`. */
  function Remove(b: Book, k: string): (r: Book)
    ensures forall c :: c in r ==> c in b
    ensures |r| == if Lookup(b, k).Some? then |b| - 1 else |b|
  {
    match IndexOfKey(b, k)
    case Some(i) => b[..i] + b[i + 1..]
    case None => b
  }

  lemma IndexOfUniqueKey(b: Book, i: int)
    requires UniqueKeys(b) && 0 <= i < |b|
    ensures IndexOfKey(b, Key(b[i])) == Some(i)
  {
  }

  /** The keys of `a` are those of `b`, position by position. */
  predicate SameKeys(a: Book, b: Book)
  {
    |a| == |b| && forall i :: 0 <= i < |a| ==> Key(a[i]) == Key(b[i])
  }

  lemma LookupSameKeys(a: Book, b: Book, k: string)
    requires SameKeys(a, b) && UniqueKeys(b)
    ensures UniqueKeys(a)
    ensures IndexOfKey(a, k) == IndexOfKey(b, k)
  {
    match IndexOfKey(b, k)
    case None =>
    case Some(i) => IndexOfUniqueKey(a, i);
  }

  lemma AddLookup(b: Book, c: Contact, k: string)
    requires UniqueKeys(b)
    ensures UniqueKeys(Add(b, c))
    ensures Lookup(Add(b, c), k) == if k == Key(c) then Some(c) else Lookup(b, k)
  {
    var a := Add(b, c);
    match IndexOfKey(b, Key(c))
    case Some(i) =>
      assert SameKeys(a, b);
      LookupSameKeys(a, b, k);
    case None =>
      assert UniqueKeys(a);
      IndexOfUniqueKey(a, |b|);
      match IndexOfKey(b, k)
      case None =>
      case Some(j) => IndexOfUniqueKey(a, j);
  }

  /**
   * After `add_record(c)` the key of `c` maps to `c`, every other key keeps
   * its entry, a replaced entry keeps its position and a new one is appended.
   */
  lemma AddEffect(b: Book, c: Contact)
    requires UniqueKeys(b)
    ensures UniqueKeys(Add(b, c))
    ensures Lookup(Add(b, c), Key(c)) == Some(c)
    ensures forall k :: k != Key(c) ==> Lookup(Add(b, c), k) == Lookup(b, k)
    ensures Lookup(b, Key(c)).Some? ==>
      (|Add(b, c)| == |b| && forall i :: 0 <= i < |b| ==> Add(b, c)[i] == if Key(b[i]) == Key(c) then c else b[i])
    ensures Lookup(b, Key(c)).None? ==> Add(b, c) == b + [c]
  {
    AddLookup(b, c, Key(c));
    forall k | k != Key(c)
      ensures Lookup(Add(b, c), k) == Lookup(b, k)
    {
      AddLookup(b, c, k);
    }
  }

  lemma RemoveAt(b: Book, i: int)
    requires UniqueKeys(b) && 0 <= i < |b|
    ensures var r := b[..i] + b[i + 1..];
      && UniqueKeys(r)
      && (forall j :: 0 <= j < |r| ==> r[j] == if j < i then b[j] else b[j + 1])
      && (forall j :: 0 <= j < |r| ==> Key(r[j]) != Key(b[i]))
  {
    var r := b[..i] + b[i + 1..];
    assert forall j :: 0 <= j < |r| ==> r[j] == if j < i then b[j] else b[j + 1];
  }

  lemma RemoveLookup(b: Book, k: string, k': string)
    requires UniqueKeys(b)
    ensures UniqueKeys(Remove(b, k))
    ensures Lookup(Remove(b, k), k') == if k' == k then None else Lookup(b, k')
  {
    match IndexOfKey(b, k)
    case None =>
    case Some(i) =>
      var r := b[..i] + b[i + 1..];
      assert Remove(b, k) == r;
      RemoveAt(b, i);
      if k' == k {
        assert IndexOfKey(r, k).None?;
      } else {
        LookupAfterRemoveAt(b, i, k');
        assert Lookup(r, k') == Lookup(b, k');
      }
  }

  lemma LookupAfterRemoveAt(b: Book, i: int, k': string)
    requires UniqueKeys(b) && 0 <= i < |b| && k' != Key(b[i])
    ensures Lookup(b[..i] + b[i + 1..], k') == Lookup(b, k')
  {
    var r := b[..i] + b[i + 1..];
    RemoveAt(b, i);
    match IndexOfKey(b, k')
    case None =>
      assert forall j :: 0 <= j < |r| ==> Key(r[j]) != k';
      KeyAbsent(r, k');
    case Some(j) =>
      var j' := if j < i then j else j - 1;
      assert r[j'] == b[j];
      IndexOfUniqueKey(r, j');
  }

  lemma KeyAbsent(b: Book, k: string)
    requires forall j :: 0 <= j < |b| ==> Key(b[j]) != k
    ensures IndexOfKey(b, k) == None
  {
  }

  /**
   * After `remove_record` the key is gone, every other key keeps its entry,
   * the remaining entries keep their order, and an absent key changes nothing.
   */
  lemma RemoveEffect(b: Book, k: string)
    requires UniqueKeys(b)
    ensures UniqueKeys(Remove(b, k))
    ensures Lookup(Remove(b, k), k) == None
    ensures forall k' :: k' != k ==> Lookup(Remove(b, k), k') == Lookup(b, k')
    ensures Lookup(b, k).None? ==> Remove(b, k) == b
    ensures Lookup(b, k).Some? ==>
      (|Remove(b, k)| == |b| - 1 && exists i :: 0 <= i < |b| && Key(b[i]) == k && Remove(b, k) == b[..i] + b[i + 1..])
  {
    RemoveLookup(b, k, k);
    forall k' | k' != k
      ensures Lookup(Remove(b, k), k') == Lookup(b, k')
    {
      RemoveLookup(b, k, k');
    }
  }

  /** Adding a record under a new name and removing that name gives back the book. */
  lemma RemoveAfterAdd(b: Book, c: Contact)
    requires UniqueKeys(b) && Lookup(b, Key(c)).None?
    ensures Remove(Add(b, c), Key(c)) == b
  {
    IndexOfUniqueKey(b + [c], |b|);
    assert (b + [c])[..|b|] == b;
  }

  // ---------------------------------------------------------------------------
  // show_one_record, show_all_records
  // ---------------------------------------------------------------------------

  function OneRecordText(name: string, c: Contact): string
  {
    "Name: " + name + "; Birthday: " + OptionalBirthdayText(c.birthday)
      + "; Phone: " + Join(", ", PhoneValues(c.phones))
  }

  /** `show_one_record`: the entry's line, or a `KeyError` for an absent name. */
  function ShowOne(b: Book, name: string): (r: Result<string>)
    ensures r.Err? <==> Lookup(b, name).None?
    ensures r.Err? ==> r.error == KeyError
    ensures r.Ok? ==> r.value == OneRecordText(name, Lookup(b, name).value)
  {
    match Lookup(b, name)
    case None => Err(KeyError)
    case Some(c) => Ok(OneRecordText(name, c))
  }

  /** A record just added can be shown; a name just removed cannot. */
  lemma ShowOneAfterAddAndRemove(b: Book, c: Contact)
    requires UniqueKeys(b)
    ensures ShowOne(Add(b, c), Key(c)) == Ok(OneRecordText(Key(c), c))
    ensures ShowOne(Remove(b, Key(c)), Key(c)) == Err(KeyError)
  {
    AddEffect(b, c);
    RemoveEffect(b, Key(c));
  }

  function AllRecordsLine(c: Contact): (line: string)
    ensures line != ""
  {
    "Name: " + c.name.value + "; Birthday: " + OptionalBirthdayText(c.birthday)
      + "; Phone: " + Join(", ", PhoneValues(c.phones)) + " Email: " + OptionalEmailText(c.email)
  }

  /** `show_all_records`: one line per record, in insertion order, joined by newlines. */
  function ShowAll(b: Book): (s: string)
    ensures s == "" <==> b == []
  {
    var lines := seq(|b|, i requires 0 <= i < |b| => AllRecordsLine(b[i]));
    JoinEmpty("\n", lines);
    Join("\n", lines)
  }

  // ---------------------------------------------------------------------------
  // search_in_file
  // ---------------------------------------------------------------------------

  function SearchLine(c: Contact): (line: string)
    ensures line != ""
  {
    "Name: " + c.name.value + " Birthday: " + OptionalBirthdayText(c.birthday)
      + " Phone: " + Join(",", PhoneValues(c.phones)) + "\n"
  }

  /** The name contains the query, both lower-cased. */
  predicate NameMatches(query: string, c: Contact)
  {
    Contains(Lower(c.name.value), Lower(query))
  }

  /** The raw phone value contains the lower-cased query; the phone itself is not lower-cased. */
  predicate PhoneMatches(query: string, p: Phone)
  {
    Contains(p.value, Lower(query))
  }

  /** One line for each phone (of `ps`) that matches. */
  function PhoneHits(query: string, c: Contact, ps: seq<Phone>): seq<string>
  {
    if ps == [] then []
    else PhoneHits(query, c, ps[..|ps| - 1]) + (if PhoneMatches(query, ps[|ps| - 1]) then [SearchLine(c)] else [])
  }

  /** What one record contributes: one line if its name matches, else one line per matching phone. */
  function RecordHits(query: string, c: Contact): seq<string>
  {
    if NameMatches(query, c) then [SearchLine(c)] else PhoneHits(query, c, c.phones)
  }

  /** The lines `search_in_file` collects, record by record; each is the line of a matching record. */
  function SearchLines(query: string, b: Book): (lines: seq<string>)
    ensures forall line :: line in lines ==> exists c :: c in b && Matches(query, c) && line == SearchLine(c)
  {
    if b == [] then []
    else
      var init, last := b[..|b| - 1], b[|b| - 1];
      PhoneHitsMeaning(query, last, last.phones);
      assert forall c :: c in init ==> c in b;
      SearchLines(query, init) + RecordHits(query, last)
  }

  /** The string `search_in_file` returns: empty exactly when no line is collected. */
  function SearchResult(query: string, b: Book): (r: string)
    ensures r == "" <==> SearchLines(query, b) == []
  {
    var lines := SearchLines(query, b);
    ConcatEmpty(lines);
    assert lines != [] ==> lines[0] in lines;
    Concat(lines)
  }

  predicate Matches(query: string, c: Contact)
  {
    NameMatches(query, c) || exists p :: p in c.phones && PhoneMatches(query, p)
  }

  /** The phone-side lines are all the record's line, one per matching phone. */
  lemma {:induction false} PhoneHitsMeaning(query: string, c: Contact, ps: seq<Phone>)
    ensures forall line :: line in PhoneHits(query, c, ps) ==> line == SearchLine(c)
    ensures |PhoneHits(query, c, ps)| == |set i | 0 <= i < |ps| && PhoneMatches(query, ps[i])|
    ensures PhoneHits(query, c, ps) != [] <==> exists p :: p in ps && PhoneMatches(query, p)
  {
    if ps != [] {
      var n := |ps| - 1;
      var init := ps[..n];
      PhoneHitsMeaning(query, c, init);
      var before := set i | 0 <= i < n && PhoneMatches(query, init[i]);
      var after := set i | 0 <= i < |ps| && PhoneMatches(query, ps[i]);
      if PhoneMatches(query, ps[n]) {
        assert after == before + {n};
      } else {
        assert after == before;
      }
      assert forall p :: p in ps <==> p in init || p == ps[n];
    }
  }

  /** Every line of the result comes from a matching record, and every matching record yields its line. */
  lemma {:induction false} SearchLinesMeaning(query: string, b: Book)
    ensures forall line :: line in SearchLines(query, b) ==>
      exists c :: c in b && Matches(query, c) && line == SearchLine(c)
    ensures forall c :: c in b && Matches(query, c) ==> SearchLine(c) in SearchLines(query, b)
  {
    if b != [] {
      var init, last := b[..|b| - 1], b[|b| - 1];
      SearchLinesMeaning(query, init);
      PhoneHitsMeaning(query, last, last.phones);
      var hits := RecordHits(query, last);
      assert SearchLines(query, b) == SearchLines(query, init) + hits;
      if Matches(query, last) {
        assert hits != [] && hits[0] in hits;
      }
      assert forall c :: c in b <==> c in init || c == last;
    }
  }

  /** No line at all exactly when no record matches. */
  lemma {:induction false} SearchLinesEmpty(query: string, b: Book)
    ensures SearchLines(query, b) == [] <==> forall c :: c in b ==> !Matches(query, c)
  {
    if b != [] {
      var init, last := b[..|b| - 1], b[|b| - 1];
      SearchLinesEmpty(query, init);
      PhoneHitsMeaning(query, last, last.phones);
      assert SearchLines(query, b) == SearchLines(query, init) + RecordHits(query, last);
      assert RecordHits(query, last) == [] <==> !Matches(query, last);
      assert forall c :: c in b <==> c in init || c == last;
    }
  }

  /** `search_in_file` returns the empty string exactly when no record matches. */
  lemma SearchNothing(query: string, b: Book)
    ensures SearchResult(query, b) == "" <==> forall c :: c in b ==> !Matches(query, c)
  {
    var lines := SearchLines(query, b);
    SearchLinesEmpty(query, b);
    ConcatEmpty(lines);
    if lines != [] {
      SearchLinesMeaning(query, b);
      assert lines[0] in lines;
      var c :| c in b && Matches(query, c) && lines[0] == SearchLine(c);
      assert SearchLine(c)[|SearchLine(c)| - 1] == '\n';
    }
  }

  /** Name search ignores case on both sides; phone search lower-cases only the query. */
  lemma SearchExamples()
    ensures NameMatches("john", Contact(Name("John Smith"), [], None, None))
    ensures PhoneMatches("ABC", Phone("x-abc"))
    ensures !PhoneMatches("abc", Phone("ABC"))
  {
    assert Lower("john") <= Lower("John Smith")[0..];
    assert Lower("ABC") <= "x-abc"[2..];
    assert Lower("abc") == "abc";
    assert "ABC"[0..] == "ABC" && "ABC"[0] != 'a';
  }

  // ---------------------------------------------------------------------------
  // iterator
  // ---------------------------------------------------------------------------

  function IteratorLine(c: Contact): string
  {
    c.name.value + " (B-day: " + OptionalBirthdayText(c.birthday) + "): "
      + Join(", ", PhoneValues(c.phones)) + "\n"
  }

  function IteratorLines(b: Book): (lines: seq<string>)
    ensures |lines| == |b|
    ensures forall i :: 0 <= i < |b| ==> lines[i] == IteratorLine(b[i])
  {
    seq(|b|, i requires 0 <= i < |b| => IteratorLine(b[i]))
  }

  /** How many records `iterator(n)` lists: `n` clamped to the record count, and none for `n <= 0`. */
  function ShownCount(n: int, count: nat): (k: nat)
    ensures k <= count
    ensures n <= 0 ==> k == 0
    ensures 0 < n <= count ==> k == n
    ensures n > count ==> k == count
  {
    if n <= 0 then 0 else if n > count then count else n
  }

  /** The one block `iterator(n)` yields: a line for each of the first records. */
  function IteratorBlock(b: Book, n: int): (block: string)
    ensures n >= |b| ==> block == Concat(IteratorLines(b))
    ensures n <= 0 ==> block == ""
  {
    assert b[..|b|] == b;
    Concat(IteratorLines(b[..ShownCount(n, |b|)]))
  }

  // ---------------------------------------------------------------------------
  // change_record
  // ---------------------------------------------------------------------------

  /** `change_record`: the named record's phones go through `change`; an absent name changes nothing. */
  function ChangeIn(b: Book, name: string, oldPhone: Phone, newPhone: Phone): (r: Book)
    ensures SameKeys(r, b)
  {
    match IndexOfKey(b, name)
    case None => b
    case Some(i) => b[i := b[i].(phones := ChangedPhones(b[i].phones, oldPhone, newPhone))]
  }

  lemma ChangeInEffect(b: Book, name: string, oldPhone: Phone, newPhone: Phone)
    requires UniqueKeys(b)
    ensures UniqueKeys(ChangeIn(b, name, oldPhone, newPhone))
    ensures Lookup(b, name).None? ==> ChangeIn(b, name, oldPhone, newPhone) == b
    ensures forall k :: k != name ==> Lookup(ChangeIn(b, name, oldPhone, newPhone), k) == Lookup(b, k)
    ensures Lookup(b, name).Some? ==>
      (Lookup(ChangeIn(b, name, oldPhone, newPhone), name)
       == Some(Lookup(b, name).value.(phones := ChangedPhones(Lookup(b, name).value.phones, oldPhone, newPhone))))
  {
    var r := ChangeIn(b, name, oldPhone, newPhone);
    assert |r| == |b| && forall i :: 0 <= i < |r| ==> Key(r[i]) == Key(b[i]);
    forall k | k != name
      ensures Lookup(r, k) == Lookup(b, k)
    {
      match IndexOfKey(b, k)
      case None =>
      case Some(j) => IndexOfUniqueKey(r, j);
    }
    match IndexOfKey(b, name)
    case None =>
    case Some(i) => IndexOfUniqueKey(r, i);
  }

  // ---------------------------------------------------------------------------
  // AddressBook
  // ---------------------------------------------------------------------------

  /** The position of `k` in a key list. */
  function KeyPosition(ks: seq<string>, k: string): (r: Option<nat>)
    ensures r.Some? ==> r.value < |ks| && ks[r.value] == k
    ensures r.None? ==> k !in ks
  {
    if ks == [] then None
    else if ks[0] == k then Some(0)
    else match KeyPosition(ks[1..], k)
      case None => None
      case Some(i) => Some(i + 1)
  }

  predicate DistinctKeys(ks: seq<string>)
  {
    forall i, j :: 0 <= i < j < |ks| ==> ks[i] != ks[j]
  }

  /** A dictionary's contents: its key order and its mapping, every contact stored under its own name. */
  ghost predicate Consistent(ks: seq<string>, m: map<string, Contact>)
  {
    && DistinctKeys(ks)
    && (forall k :: k in m <==> k in ks)
    && (forall k :: k in m ==> Key(m[k]) == k)
  }

  /** The contacts of `m` in the key order `ks`. */
  function Ordered(ks: seq<string>, m: map<string, Contact>): (b: Book)
    requires forall k :: k in ks ==> k in m
    ensures |b| == |ks|
    ensures forall i :: 0 <= i < |ks| ==> b[i] == m[ks[i]]
  {
    seq(|ks|, i requires 0 <= i < |ks| => m[ks[i]])
  }

  lemma OrderedUnique(ks: seq<string>, m: map<string, Contact>)
    requires Consistent(ks, m)
    ensures UniqueKeys(Ordered(ks, m))
  {
    var b := Ordered(ks, m);
    assert forall i :: 0 <= i < |ks| ==> Key(b[i]) == ks[i];
  }

  /** Storing under a key already present keeps the order and replaces that entry in place. */
  lemma OrderedStoreExisting(ks: seq<string>, m: map<string, Contact>, c: Contact, i: int)
    requires Consistent(ks, m) && 0 <= i < |ks| && ks[i] == Key(c)
    ensures Consistent(ks, m[Key(c) := c])
    ensures Ordered(ks, m[Key(c) := c]) == Add(Ordered(ks, m), c)
  {
    var b := Ordered(ks, m);
    OrderedUnique(ks, m);
    IndexOfUniqueKey(b, i);
  }

  /** Storing under a new key appends it to the order. */
  lemma OrderedStoreNew(ks: seq<string>, m: map<string, Contact>, c: Contact)
    requires Consistent(ks, m) && Key(c) !in m
    ensures Consistent(ks + [Key(c)], m[Key(c) := c])
    ensures Ordered(ks + [Key(c)], m[Key(c) := c]) == Add(Ordered(ks, m), c)
  {
    var b := Ordered(ks, m);
    assert forall i :: 0 <= i < |ks| ==> Key(b[i]) == ks[i];
    assert IndexOfKey(b, Key(c)).None?;
  }

  lemma RemoveAtKeys(ks: seq<string>, i: int)
    requires DistinctKeys(ks) && 0 <= i < |ks|
    ensures DistinctKeys(ks[..i] + ks[i + 1..])
    ensures forall k :: k in ks[..i] + ks[i + 1..] <==> k in ks && k != ks[i]
  {
    var ks' := ks[..i] + ks[i + 1..];
    assert forall j :: 0 <= j < |ks'| ==> ks'[j] == if j < i then ks[j] else ks[j + 1];
    forall k | k in ks && k != ks[i]
      ensures k in ks'
    {
      var j :| 0 <= j < |ks| && ks[j] == k;
      assert ks'[if j < i then j else j - 1] == k;
    }
  }

  /** Popping a key present at position `i` drops it from the order. */
  lemma OrderedPop(ks: seq<string>, m: map<string, Contact>, i: int)
    requires Consistent(ks, m) && 0 <= i < |ks|
    ensures Consistent(ks[..i] + ks[i + 1..], m - {ks[i]})
    ensures Ordered(ks[..i] + ks[i + 1..], m - {ks[i]}) == Remove(Ordered(ks, m), ks[i])
  {
    var ks', m' := ks[..i] + ks[i + 1..], m - {ks[i]};
    RemoveAtKeys(ks, i);
    var b := Ordered(ks, m);
    assert Remove(b, ks[i]) == b[..i] + b[i + 1..] by {
      OrderedUnique(ks, m);
      IndexOfUniqueKey(b, i);
    }
    var o, r := Ordered(ks', m'), b[..i] + b[i + 1..];
    forall j | 0 <= j < |ks'|
      ensures o[j] == r[j]
    {
      if j < i {
        assert ks'[j] == ks[j] && r[j] == b[j];
      } else {
        assert ks'[j] == ks[j + 1] && r[j] == b[j + 1];
      }
    }
    assert o == r;
  }

  /** Popping an absent key changes nothing. */
  lemma OrderedPopAbsent(ks: seq<string>, m: map<string, Contact>, k: string)
    requires Consistent(ks, m) && k !in m
    ensures Remove(Ordered(ks, m), k) == Ordered(ks, m)
  {
    var b := Ordered(ks, m);
    assert forall i :: 0 <= i < |ks| ==> Key(b[i]) == ks[i];
    assert IndexOfKey(b, k).None?;
  }

  /** Changing the contents stored under a present key, keeping its name. */
  lemma OrderedChange(ks: seq<string>, m: map<string, Contact>, name: string, oldPhone: Phone, newPhone: Phone)
    requires Consistent(ks, m) && name in m
    ensures Consistent(ks, m[name := m[name].(phones := ChangedPhones(m[name].phones, oldPhone, newPhone))])
    ensures Ordered(ks, m[name := m[name].(phones := ChangedPhones(m[name].phones, oldPhone, newPhone))])
         == ChangeIn(Ordered(ks, m), name, oldPhone, newPhone)
  {
    var c' := m[name].(phones := ChangedPhones(m[name].phones, oldPhone, newPhone));
    var m' := m[name := c'];
    assert Consistent(ks, m') by {
      assert Key(c') == name;
    }
    var b := Ordered(ks, m);
    OrderedUnique(ks, m);
    var i :| 0 <= i < |ks| && ks[i] == name;
    IndexOfUniqueKey(b, i);
    assert ChangeIn(b, name, oldPhone, newPhone) == b[i := c'];
    assert Ordered(ks, m') == b[i := c'];
  }

  lemma OrderedChangeAbsent(ks: seq<string>, m: map<string, Contact>, name: string, oldPhone: Phone, newPhone: Phone)
    requires Consistent(ks, m) && name !in m
    ensures ChangeIn(Ordered(ks, m), name, oldPhone, newPhone) == Ordered(ks, m)
  {
    var b := Ordered(ks, m);
    assert forall i :: 0 <= i < |ks| ==> Key(b[i]) == ks[i];
    assert IndexOfKey(b, name).None?;
  }

  lemma OrderedLookup(ks: seq<string>, m: map<string, Contact>, k: string)
    requires Consistent(ks, m)
    ensures Lookup(Ordered(ks, m), k) == if k in m then Some(m[k]) else None
  {
    var b := Ordered(ks, m);
    OrderedUnique(ks, m);
    if k in m {
      var i :| 0 <= i < |ks| && ks[i] == k;
      IndexOfUniqueKey(b, i);
    } else {
      assert forall i :: 0 <= i < |ks| ==> Key(b[i]) == ks[i];
    }
  }

  lemma SearchStep(query: string, b: Book, i: int)
    requires 0 <= i < |b|
    ensures Concat(SearchLines(query, b[..i + 1]))
         == Concat(SearchLines(query, b[..i])) + Concat(RecordHits(query, b[i]))
  {
    assert b[..i + 1][..i] == b[..i];
    ConcatAppend(SearchLines(query, b[..i]), RecordHits(query, b[i]));
  }

  lemma PhoneStep(query: string, c: Contact, ps: seq<Phone>, k: int)
    requires 0 <= k < |ps|
    ensures Concat(PhoneHits(query, c, ps[..k + 1]))
         == Concat(PhoneHits(query, c, ps[..k])) + (if PhoneMatches(query, ps[k]) then SearchLine(c) else "")
  {
    assert ps[..k + 1][..k] == ps[..k];
    var extra: seq<string> := if PhoneMatches(query, ps[k]) then [SearchLine(c)] else [];
    ConcatAppend(PhoneHits(query, c, ps[..k]), extra);
    assert Concat(extra) == if PhoneMatches(query, ps[k]) then SearchLine(c) else "" by {
      if extra != [] {
        assert extra[..0] == [];
      }
    }
  }

  /** The body of the loop in `search_in_file` for one record: the lines it appends. */
  method SearchRecord(query: string, c: Contact) returns (lines: string)
    ensures lines == Concat(RecordHits(query, c))
  {
    var q := Lower(query);
    if Contains(Lower(c.name.value), q) {
      lines := SearchLine(c);
      assert Concat([SearchLine(c)]) == Concat([]) + SearchLine(c);
    } else {
      lines := "";
      var k := 0;
      while k < |c.phones|
        invariant 0 <= k <= |c.phones|
        invariant lines == Concat(PhoneHits(query, c, c.phones[..k]))
      {
        PhoneStep(query, c, c.phones, k);
        if Contains(c.phones[k].value, q) {
          lines := lines + SearchLine(c);
        }
        k := k + 1;
      }
      assert c.phones[..k] == c.phones;
    }
  }

  lemma IteratorStep(b: Book, k: int)
    requires 0 <= k < |b|
    ensures Concat(IteratorLines(b[..k + 1])) == Concat(IteratorLines(b[..k])) + IteratorLine(b[k])
  {
    assert IteratorLines(b[..k + 1])[..k] == IteratorLines(b[..k]);
  }

  /** The directory object: `keys` is the dictionary's insertion order, `data` its mapping. */
  class AddressBook {
    var keys: seq<string>
    var data: map<string, Record>

    /** Each record's current contents, by key. */
    function Contents(): (m: map<string, Contact>)
      reads this, data.Values
      ensures m.Keys == data.Keys
      ensures forall k :: k in data ==> m[k] == data[k].View()
    {
      map k | k in data :: data[k].View()
    }

    /** The keys are distinct and are exactly the mapping's keys, and every record's name is its key. */
    ghost predicate Valid()
      reads this
    {
      && DistinctKeys(keys)
      && (forall k :: k in data <==> k in keys)
      && (forall k :: k in data ==> data[k].name.value == k)
    }

    /** The records' contents in insertion order. */
    function Abstract(): (b: Book)
      reads this, data.Values
      requires Valid()
      ensures |b| == |keys|
      ensures forall i :: 0 <= i < |keys| ==> b[i] == data[keys[i]].View()
    {
      Ordered(keys, Contents())
    }

    lemma ValidConsistent()
      requires Valid()
      ensures Consistent(keys, Contents())
    {
    }

    lemma ConsistentValid()
      requires Consistent(keys, Contents())
      ensures Valid()
    {
      forall k | k in data
        ensures data[k].name.value == k
      {
        assert k in Contents();
      }
    }

    constructor ()
      ensures Valid() && Abstract() == []
    {
      keys := [];
      data := map[];
    }

    method AddRecord(r: Record)
      requires Valid()
      modifies this
      ensures Valid()
      ensures data == old(data)[r.name.value := r]
      ensures Abstract() == Add(old(Abstract()), r.View())
    {
      ValidConsistent();
      ghost var ks, m := keys, Contents();
      var key := r.name.value;
      if key !in data {
        keys := keys + [key];
      }
      data := data[key := r];
      assert Contents() == m[key := r.View()];
      assert Consistent(keys, Contents()) && Ordered(keys, Contents()) == Add(Ordered(ks, m), r.View()) by {
        if key in m {
          var i :| 0 <= i < |ks| && ks[i] == key;
          OrderedStoreExisting(ks, m, r.View(), i);
        } else {
          OrderedStoreNew(ks, m, r.View());
        }
      }
      ConsistentValid();
    }

    method RemoveRecord(r: Record)
      requires Valid()
      modifies this
      ensures Valid()
      ensures data == old(data) - {r.name.value}
      ensures Abstract() == Remove(old(Abstract()), r.name.value)
    {
      ValidConsistent();
      ghost var ks, m := keys, Contents();
      var key := r.name.value;
      match KeyPosition(keys, key)
      case None =>
        OrderedPopAbsent(keys, m, key);
      case Some(i) =>
        keys := keys[..i] + keys[i + 1..];
        data := data - {key};
        assert Contents() == m - {key};
        assert Consistent(keys, Contents()) && Ordered(keys, Contents()) == Remove(Ordered(ks, m), key) by {
          OrderedPop(ks, m, i);
        }
        ConsistentValid();
    }

    /** `show_one_record`: the dictionary lookup raises `KeyError` for an absent name. */
    function ShowOneRecord(name: string): (r: Result<string>)
      reads this, data.Values
      requires Valid()
      ensures r == ShowOne(Abstract(), name)
    {
      ValidConsistent();
      OrderedLookup(keys, Contents(), name);
      if name in data then Ok(OneRecordText(name, data[name].View())) else Err(KeyError)
    }

    /** `show_all_records`: the empty string exactly when the book is empty. */
    function ShowAllRecords(): (r: string)
      reads this, data.Values
      requires Valid()
      ensures r == ShowAll(Abstract())
      ensures r == "" <==> keys == []
    {
      ShowAll(Abstract())
    }

    /** `change_record`: only the named record may change, through `change`. */
    method ChangeRecord(username: string, oldPhone: Phone, newPhone: Phone)
      requires Valid()
      modifies if username in data then {data[username]} else {}
      ensures Valid() && keys == old(keys) && data == old(data)
      ensures Abstract() == ChangeIn(old(Abstract()), username, oldPhone, newPhone)
    {
      ValidConsistent();
      ghost var m := Contents();
      if username in data {
        var record := data[username];
        ghost var changed := m[username := m[username].(phones := ChangedPhones(m[username].phones, oldPhone, newPhone))];
        var _ := record.Change(oldPhone, newPhone);
        assert Contents() == changed by {
          assert forall k :: k in data && k != username ==> data[k] != record;
        }
        assert Ordered(keys, changed) == ChangeIn(Ordered(keys, m), username, oldPhone, newPhone) by {
          OrderedChange(keys, m, username, oldPhone, newPhone);
        }
      } else {
        OrderedChangeAbsent(keys, m, username, oldPhone, newPhone);
      }
    }

    /** `search_in_file`: one pass over the records in insertion order, accumulating lines. */
    method SearchInFile(query: string) returns (result: string)
      requires Valid()
      ensures result == SearchResult(query, Abstract())
    {
      ghost var book := Abstract();
      result := "";
      var i := 0;
      while i < |keys|
        invariant 0 <= i <= |keys|
        invariant result == Concat(SearchLines(query, book[..i]))
      {
        var c := data[keys[i]].View();
        SearchStep(query, book, i);
        var lines := SearchRecord(query, c);
        result := result + lines;
        i := i + 1;
      }
      assert book[..i] == book;
    }

    /** `iterator(n)`: a generator that yields exactly one block and then stops. */
    method Iterator(n: int) returns (yielded: seq<string>)
      requires Valid()
      ensures yielded == [IteratorBlock(Abstract(), n)]
    {
      ghost var book := Abstract();
      var recordsNum := |keys|;
      var limit := n;
      if limit > recordsNum {
        limit := recordsNum;
      }
      var count := 0;
      var result := "";
      var i := 0;
      while i < |keys|
        invariant 0 <= i <= |keys|
        invariant count == if limit <= 0 then 0 else if i < limit then i else limit
        invariant result == Concat(IteratorLines(book[..count]))
      {
        if count < limit {
          IteratorStep(book, count);
          result := result + IteratorLine(data[keys[i]].View());
          count := count + 1;
        }
        i := i + 1;
      }
      yielded := [result];
    }
  }
}
