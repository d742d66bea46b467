/** Registering a PARENT account as a parent (`createParent`). */
module Parents {
  import opened Js
  import opened Store

  const BadId: string := "fadlan id-ga sax"
  const NoUser: string := "user-kan mid jira maaha"
  const NotParent: string := "user-kan maaha waalid, fadlan sax id-ga waalidka"
  const AlreadyParent: string := "waalidkan hore ayaad ugu dartay qaybta waalidka"
  const Created: string := "si guul leh ayaad walidka u diwan galisay"

  predicate IsParentUser(s: Store, userId: int) {
    exists k :: k in s.parents && s.parents[k].userId == userId
  }

  /** Every parent row belongs to its own PARENT account. */
  predicate ParentRowsSound(s: Store) {
    && (forall i, j :: i in s.parents && j in s.parents && i != j ==> s.parents[i].userId != s.parents[j].userId)
    && (forall k :: k in s.parents ==> s.parents[k].userId in s.users && s.users[s.parents[k].userId].role == PARENT)
  }

  /** `createParent`; `!userId` already refuses `NaN`, so the `isNaN` test adds nothing. */
  function Create(s: Store, userId: Field<JsNumber>): (r: Reply)
    ensures r.status == 201 <==>
      TruthyNumber(userId) && userId.value.n in s.users && s.users[userId.value.n].role == PARENT
      && !IsParentUser(s, userId.value.n)
    ensures r.status != 201 ==> r.store == s
    ensures !TruthyNumber(userId) ==> r == Reply(s, 400, BadId)
    ensures TruthyNumber(userId) && userId.value.n in s.users && s.users[userId.value.n].role != PARENT
      ==> r == Reply(s, 400, NotParent)
    ensures r.status == 201 ==>
      r.store == s.(parents := s.parents[s.nextId := Parent(userId.value.n)], nextId := s.nextId + 1)
  {
    if !TruthyNumber(userId) then Reply(s, 400, BadId)
    else if userId.value.n !in s.users then Reply(s, 404, NoUser)
    else if s.users[userId.value.n].role != PARENT then Reply(s, 400, NotParent)
    else if IsParentUser(s, userId.value.n) then Reply(s, 400, AlreadyParent)
    else Reply(s.(parents := s.parents[s.nextId := Parent(userId.value.n)], nextId := s.nextId + 1), 201, Created)
  }

  /** Creation adds exactly one parent row and keeps every account at no more than one. */
  lemma CreateKeepsParentRowsSound(s: Store, userId: Field<JsNumber>)
    requires Valid(s) && ParentRowsSound(s)
    ensures ParentRowsSound(Create(s, userId).store)
    ensures Valid(Create(s, userId).store)
    ensures Create(s, userId).status == 201 ==>
      Create(s, userId).store.parents.Keys == s.parents.Keys + {s.nextId}
      && IsParentUser(Create(s, userId).store, userId.value.n)
  {
    var r := Create(s, userId);
    if r.status == 201 {
      var p := r.store.parents;
      forall i, j | i in p && j in p && i != j
        ensures p[i].userId != p[j].userId
      {
        if i == s.nextId {
          assert j in s.parents;
        } else if j == s.nextId {
          assert i in s.parents;
        }
      }
      assert p[s.nextId].userId == userId.value.n;
    }
  }

  /** Registering the same account twice fails the second time. */
  lemma SecondCreateRefused(s: Store, userId: Field<JsNumber>)
    requires Create(s, userId).status == 201
    ensures Create(Create(s, userId).store, userId) == Reply(Create(s, userId).store, 400, AlreadyParent)
  {
    var t := Create(s, userId).store;
    assert t.parents[s.nextId].userId == userId.value.n;
  }
}
