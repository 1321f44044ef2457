/** The member store (repository/MemberRepository.java together with the
    operations it inherits): a sequence of documents in insertion order,
    with the queries the service uses and `save`, which enforces the unique
    index on `email` (model/Member.java:76). */
module MemberRepository {
  import opened Wrappers
  import opened Chars
  import opened MemberModel
  import opened Exceptions

  type Store = seq<Member>

  /** Every stored document has an id. */
  predicate HasIds(store: Store) {
    forall i :: 0 <= i < |store| ==> store[i].id.Some?
  }

  /** No two stored documents share an id. */
  predicate UniqueIds(store: Store) {
    forall i, j :: 0 <= i < j < |store| ==> store[i].id != store[j].id
  }

  /** The unique index on `email`: no two stored documents share an email
      (a missing email counts as one value, as a unique index treats it). */
  predicate UniqueEmails(store: Store) {
    forall i, j :: 0 <= i < j < |store| ==> store[i].email != store[j].email
  }

  /** The position of the first document satisfying `p`, if any. */
  function IndexWhere(store: Store, p: Member -> bool): (r: Option<nat>)
    ensures r.Some? ==> r.value < |store| && p(store[r.value])
    ensures r.Some? ==> forall j :: 0 <= j < r.value ==> !p(store[j])
    ensures r.None? <==> forall j :: 0 <= j < |store| ==> !p(store[j])
  {
    if |store| == 0 then None
    else if p(store[0]) then Some(0)
    else match IndexWhere(store[1..], p)
      case None => None
      case Some(k) => Some(k + 1)
  }

  /** The position of the document whose id is `id`, if any. */
  function IndexOfId(store: Store, id: string): (r: Option<nat>)
    ensures r.Some? ==> r.value < |store| && store[r.value].id == Some(id)
    ensures r.None? <==> forall j :: 0 <= j < |store| ==> store[j].id != Some(id)
  {
    IndexWhere(store, (m: Member) => m.id == Some(id))
  }

  /** `findByEmail`: a stored member with exactly this email, or nothing. */
  function FindByEmail(store: Store, email: string): (r: Option<Member>)
    ensures r.Some? ==> r.value in store && r.value.email == Some(email)
    ensures r.None? <==> forall j :: 0 <= j < |store| ==> store[j].email != Some(email)
  {
    match IndexWhere(store, (m: Member) => m.email == Some(email))
    case None => None
    case Some(i) => Some(store[i])
  }

  /** `findById`: the stored member with this id, or nothing. */
  function FindById(store: Store, id: string): (r: Option<Member>)
    ensures r.Some? ==> r.value in store && r.value.id == Some(id)
    ensures r.None? <==> forall j :: 0 <= j < |store| ==> store[j].id != Some(id)
  {
    match IndexOfId(store, id)
    case None => None
    case Some(i) => Some(store[i])
  }

  /** Under the unique index, the member `findByEmail` returns is THE member
      with that email. */
  lemma FindByEmailUnique(store: Store, i: nat, email: string)
    requires UniqueEmails(store)
    requires i < |store| && store[i].email == Some(email)
    ensures FindByEmail(store, email) == Some(store[i])
  {
  }

  /** With unique ids, `findById` returns THE member with that id. */
  lemma FindByIdUnique(store: Store, i: nat, id: string)
    requires UniqueIds(store)
    requires i < |store| && store[i].id == Some(id)
    ensures FindById(store, id) == Some(store[i])
  {
  }

  // ---------------------------------------------------------------------------
  // findAllByOrderByNameAsc

  /** Sort order on the `name` field: a missing name sorts first, names
      compare lexicographically. */
  predicate NameLe(a: Option<string>, b: Option<string>) {
    a.None? || (b.Some? && LexLe(a.value, b.value))
  }

  lemma NameLeTotal(a: Option<string>, b: Option<string>)
    ensures NameLe(a, b) || NameLe(b, a)
  {
    if a.Some? && b.Some? {
      LexLeTotal(a.value, b.value);
    }
  }

  lemma NameLeTransitive(a: Option<string>, b: Option<string>, c: Option<string>)
    requires NameLe(a, b) && NameLe(b, c)
    ensures NameLe(a, c)
  {
    if a.Some? {
      LexLeTransitive(a.value, b.value, c.value);
    }
  }

  /** Non-decreasing by name. */
  predicate SortedByName(s: seq<Member>) {
    forall i, j :: 0 <= i < j < |s| ==> NameLe(s[i].name, s[j].name)
  }

  /** Insert `x` before the first member whose name it does not exceed. */
  function InsertByName(x: Member, s: seq<Member>): (r: seq<Member>)
    ensures multiset(r) == multiset(s) + multiset{x}
  {
    if |s| == 0 then [x]
    else if NameLe(x.name, s[0].name) then [x] + s
    else
      assert s == [s[0]] + s[1..];
      [s[0]] + InsertByName(x, s[1..])
  }

  lemma {:induction false} InsertByNameSorted(x: Member, s: seq<Member>)
    requires SortedByName(s)
    ensures SortedByName(InsertByName(x, s))
    decreases |s|
  {
    if |s| == 0 {
    } else if NameLe(x.name, s[0].name) {
      var r := InsertByName(x, s);
      assert r == [x] + s;
      forall i, j | 0 <= i < j < |r|
        ensures NameLe(r[i].name, r[j].name)
      {
        if i == 0 && j > 1 {
          NameLeTransitive(x.name, s[0].name, s[j - 1].name);
        }
      }
    } else {
      NameLeTotal(x.name, s[0].name);
      InsertByNameSorted(x, s[1..]);
      var t := InsertByName(x, s[1..]);
      var r := [s[0]] + t;
      assert r == InsertByName(x, s);
      forall k | 0 <= k < |t|
        ensures NameLe(s[0].name, t[k].name)
      {
        assert t[k] in multiset(t);
        if t[k] != x {
          assert t[k] in multiset(s[1..]);
          var j :| 0 <= j < |s[1..]| && s[1..][j] == t[k];
          assert s[j + 1] == t[k];
        }
      }
      forall i, j | 0 <= i < j < |r|
        ensures NameLe(r[i].name, r[j].name)
      {
        if i == 0 {
          assert r[j] == t[j - 1];
        } else {
          assert r[i] == t[i - 1] && r[j] == t[j - 1];
        }
      }
    }
  }

  /** Insertion sort by name. */
  function SortByName(s: seq<Member>): (r: seq<Member>)
    ensures multiset(r) == multiset(s)
    ensures SortedByName(r)
  {
    if |s| == 0 then []
    else
      var rest := SortByName(s[1..]);
      InsertByNameSorted(s[0], rest);
      assert s == [s[0]] + s[1..];
      InsertByName(s[0], rest)
  }

  /** `findAllByOrderByNameAsc`: every stored member, each exactly as often
      as stored, ordered by name. */
  function FindAllByOrderByNameAsc(store: Store): (r: seq<Member>)
    ensures multiset(r) == multiset(store)
    ensures SortedByName(r)
  {
    SortByName(store)
  }

  // ---------------------------------------------------------------------------
  // save

  /** The longest stored id. */
  function MaxIdLength(store: Store): (n: nat)
    ensures forall i :: 0 <= i < |store| && store[i].id.Some? ==> |store[i].id.value| <= n
  {
    if |store| == 0 then 0
    else
      var rest := MaxIdLength(store[1..]);
      var here := if store[0].id.Some? then |store[0].id.value| else 0;
      assert forall i :: 1 <= i < |store| ==> store[i] == store[1..][i - 1];
      if here > rest then here else rest
  }

  /** An id no stored document has: longer than every stored id. Stands in
      for the store's ObjectId generator. */
  function FreshId(store: Store): (id: string)
    ensures forall i :: 0 <= i < |store| ==> store[i].id != Some(id)
  {
    seq(MaxIdLength(store) + 1, _ => '0')
  }

  /** The name of the unique index on `email`. */
  const EmailIndex: string := "email"

  /** Some document other than the one at position `except` has this email. */
  predicate EmailTaken(store: Store, email: Option<string>, except: Option<nat>) {
    exists j :: 0 <= j < |store| && Some(j) != except && store[j].email == email
  }

  /** A save that succeeded: the document as stored, and the new store. */
  datatype Saved = Saved(member: Member, store: Store)

  predicate SameFields(a: Member, b: Member) {
    a.name == b.name && a.email == b.email && a.phoneNumber == b.phoneNumber
  }

  /** The stored document a save of `doc` overwrites: the one with its id. */
  function SaveTarget(store: Store, doc: Member): (r: Option<nat>)
    ensures r.Some? ==> r.value < |store| && doc.id.Some? && store[r.value].id == doc.id
    ensures r.None? <==> doc.id.None? || forall j :: 0 <= j < |store| ==> store[j].id != doc.id
  {
    if doc.id.Some? then IndexOfId(store, doc.id.value) else None
  }

  /** `save`: a document without an id is inserted under a fresh id; one
      whose id is stored replaces that document in place; one with an
      unknown id is inserted under it. The unique email index rejects the
      write when any OTHER document has the same email. */
  function Save(store: Store, doc: Member): (r: Result<Saved, Exception>)
    ensures r.Failure? ==> r.error == DuplicateKeyException(EmailIndex)
    ensures r.Success? <==> !EmailTaken(store, doc.email, SaveTarget(store, doc))
    ensures doc.id.None? ==> (r.Success? <==> forall j :: 0 <= j < |store| ==> store[j].email != doc.email)
    ensures r.Success? ==> SameFields(r.value.member, doc) && r.value.member.id.Some?
    ensures doc.id.Some? && r.Success? ==> r.value.member == doc
    // a new document: appended under a fresh id
    ensures doc.id.None? && r.Success? ==>
              r.value.store == store + [r.value.member]
              && forall j :: 0 <= j < |store| ==> store[j].id != r.value.member.id
    // a stored id: that position is overwritten, nothing else changes
    ensures SaveTarget(store, doc).Some? && r.Success? ==>
              var i := SaveTarget(store, doc).value;
              |r.value.store| == |store| && r.value.store[i] == doc
              && forall j :: 0 <= j < |store| && j != i ==> r.value.store[j] == store[j]
    // an unknown id: appended under that id
    ensures doc.id.Some? && SaveTarget(store, doc).None? && r.Success? ==> r.value.store == store + [doc]
    ensures r.Success? ==> r.value.member in r.value.store
    ensures r.Success? ==> forall j :: 0 <= j < |r.value.store| ==> r.value.store[j] == r.value.member || r.value.store[j] in store
  {
    var existing := SaveTarget(store, doc);
    if EmailTaken(store, doc.email, existing) then
      Failure(DuplicateKeyException(EmailIndex))
    else
      match existing
      case Some(i) =>
        var store' := store[i := doc];
        assert forall j :: 0 <= j < |store| && j != i ==> store'[j] == store[j];
        assert store'[i] == doc;
        Success(Saved(doc, store'))
      case None =>
        var saved := if doc.id.Some? then doc else doc.(id := Some(FreshId(store)));
        var store' := store + [saved];
        assert forall j :: 0 <= j < |store| ==> store'[j] == store[j];
        Success(Saved(saved, store'))
  }

  /** A successful save keeps the unique email index, and keeps every id
      present and unique. */
  lemma SavePreservesStoreInvariants(store: Store, doc: Member)
    requires Save(store, doc).Success?
    ensures UniqueEmails(store) ==> UniqueEmails(Save(store, doc).value.store)
    ensures HasIds(store) ==> HasIds(Save(store, doc).value.store)
    ensures UniqueIds(store) ==> UniqueIds(Save(store, doc).value.store)
  {
    var existing := SaveTarget(store, doc);
    var store' := Save(store, doc).value.store;
    assert !EmailTaken(store, doc.email, existing);
    match existing
    case Some(i) =>
      assert store' == store[i := doc];
    case None =>
      assert store' == store + [Save(store, doc).value.member];
  }
}
