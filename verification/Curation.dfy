/** The duplicate-entity merge: what its rewrite of the tables keeps, and exactly when it
    can finish. */
module Curation {
  import opened Ordering

  type Id = string
  /** What makes two entities of a tenant duplicates: canonical name and kind. */
  type Name = (string, string)
  datatype Option<T> = None | Some(value: T)

  datatype Entity = Entity(tenant: string, canonical: string, kind: string, rest: string)
  datatype Mention = Mention(entity: Id, rest: string)
  datatype Claim = Claim(subject: Option<Id>, rest: string)
  datatype Relationship = Relationship(subject: Id, target: Id, rest: string)
  datatype Event = Event(subject: Option<Id>, rest: string)

  /** The tables with a foreign key into `entities`, each by primary key. */
  datatype Tables = Tables(
    entities: map<Id, Entity>,
    mentions: map<Id, Mention>,
    claims: map<Id, Claim>,
    relationships: map<Id, Relationship>,
    events: map<Id, Event>)

  ghost predicate Points(subject: Option<Id>, entities: map<Id, Entity>) {
    subject.Some? ==> subject.value in entities
  }

  ghost predicate Ends(r: Relationship, entities: map<Id, Entity>) {
    r.subject in entities && r.target in entities
  }

  /** The foreign keys hold. */
  ghost predicate Sound(t: Tables) {
    (forall m :: m in t.mentions ==> t.mentions[m].entity in t.entities) &&
    (forall c :: c in t.claims ==> Points(t.claims[c].subject, t.entities)) &&
    (forall r :: r in t.relationships ==> Ends(t.relationships[r], t.entities)) &&
    (forall v :: v in t.events ==> Points(t.events[v].subject, t.entities))
  }

  // ---- the statements -----------------------------------------------------------------

  function Swap(e: Id, keep: Id, dup: Id): Id { if e == dup then keep else e }

  function SwapMention(x: Mention, keep: Id, dup: Id): Mention { x.(entity := Swap(x.entity, keep, dup)) }

  function SwapClaim(x: Claim, keep: Id, dup: Id): Claim {
    if x.subject == Some(dup) then x.(subject := Some(keep)) else x
  }

  function SwapSubject(x: Relationship, keep: Id, dup: Id): Relationship { x.(subject := Swap(x.subject, keep, dup)) }

  function SwapTarget(x: Relationship, keep: Id, dup: Id): Relationship { x.(target := Swap(x.target, keep, dup)) }

  /** What the four UPDATE statements for one duplicate do. */
  function Redirected(t: Tables, keep: Id, dup: Id): Tables {
    t.(mentions := map m | m in t.mentions :: SwapMention(t.mentions[m], keep, dup),
       claims := map c | c in t.claims :: SwapClaim(t.claims[c], keep, dup),
       relationships := map r | r in t.relationships ::
         SwapTarget(SwapSubject(t.relationships[r], keep, dup), keep, dup))
  }

  /** Claims and events restrict the deletion of their subject. */
  predicate Restricts(t: Tables, e: Id) {
    (exists c :: c in t.claims && t.claims[c].subject == Some(e)) ||
    (exists v :: v in t.events && t.events[v].subject == Some(e))
  }

  /** DELETE of one entity; mentions and relationships cascade. */
  function Deleted(t: Tables, e: Id): Tables {
    t.(entities := t.entities - {e},
       mentions := map m | m in t.mentions && t.mentions[m].entity != e :: t.mentions[m],
       relationships :=
         map r | r in t.relationships && t.relationships[r].subject != e && t.relationships[r].target != e ::
           t.relationships[r])
  }

  /** No mention, claim or relationship names the entity. */
  ghost predicate Unreferenced(t: Tables, e: Id) {
    (forall m :: m in t.mentions ==> t.mentions[m].entity != e) &&
    (forall c :: c in t.claims ==> t.claims[c].subject != Some(e)) &&
    forall r :: r in t.relationships ==> t.relationships[r].subject != e && t.relationships[r].target != e
  }

  /** Every row of t that does not name the entity is in s as it was; entities but this one and
      events are as they were. */
  ghost predicate KeepsOthers(t: Tables, s: Tables, e: Id) {
    (forall m :: m in t.mentions && t.mentions[m].entity != e ==> m in s.mentions && s.mentions[m] == t.mentions[m]) &&
    (forall c :: c in t.claims && t.claims[c].subject != Some(e) ==> c in s.claims && s.claims[c] == t.claims[c]) &&
    (forall r :: r in t.relationships && t.relationships[r].subject != e && t.relationships[r].target != e ==>
      r in s.relationships && s.relationships[r] == t.relationships[r]) &&
    s.entities - {e} == t.entities - {e} && s.events == t.events
  }

  ghost predicate SameRows(t: Tables, s: Tables) {
    s.mentions.Keys == t.mentions.Keys && s.claims.Keys == t.claims.Keys &&
    s.relationships.Keys == t.relationships.Keys && s.entities == t.entities
  }

  /** Nothing but an event names the duplicate any more, no row is lost, none that had nothing to
      do with it is disturbed, and no foreign key is broken. */
  ghost predicate Forgotten(t: Tables, s: Tables, keep: Id, dup: Id) {
    SameRows(t, s) && Unreferenced(s, dup) && KeepsOthers(t, s, dup) && (Sound(t) && keep in t.entities ==> Sound(s))
  }

  /** Redirecting loses no row, leaves no reference to the duplicate but an event's, disturbs no
      row that had none, and breaks no foreign key. */
  lemma RedirectedForgets(t: Tables, keep: Id, dup: Id)
    requires keep != dup
    ensures Forgotten(t, Redirected(t, keep, dup), keep, dup)
  {
    hide Sound;
    if Sound(t) && keep in t.entities { RedirectedIsSound(t, keep, dup); }
  }

  lemma RedirectedIsSound(t: Tables, keep: Id, dup: Id)
    requires Sound(t) && keep in t.entities
    ensures Sound(Redirected(t, keep, dup))
  {
  }

  /** The store refuses a deletion exactly when it would leave a reference dangling. */
  lemma RefusalIsNeeded(t: Tables, e: Id)
    requires Sound(t)
    ensures Restricts(t, e) <==> !Sound(Deleted(t, e))
  {
    var s := Deleted(t, e);
    if Restricts(t, e) {
      if c :| c in t.claims && t.claims[c].subject == Some(e) {
        assert !Points(s.claims[c].subject, s.entities);
      } else {
        var v :| v in t.events && t.events[v].subject == Some(e);
        assert !Points(s.events[v].subject, s.entities);
      }
    } else {
      forall c | c in s.claims
        ensures Points(s.claims[c].subject, s.entities)
      {
        assert t.claims[c].subject != Some(e);
      }
      forall v | v in s.events
        ensures Points(s.events[v].subject, s.entities)
      {
        assert t.events[v].subject != Some(e);
      }
    }
  }

  // ---- what the merge computes -----------------------------------------------------------

  predicate InGroup(x: Entity, tenant: string, name: Name) {
    x.tenant == tenant && (x.canonical, x.kind) == name
  }

  /** The rows the duplicate query returns, in the order the store lists them. */
  function Group(entities: map<Id, Entity>, scan: seq<Id>, tenant: string, name: Name): (r: seq<Id>)
    ensures forall e :: e in r ==> e in scan && e in entities
    ensures forall e :: e in scan && e in entities ==>
      (e in r <==> entities[e].tenant == tenant && entities[e].canonical == name.0 && entities[e].kind == name.1)
  {
    if scan == [] then []
    else
      assert scan == scan[..|scan| - 1] + [scan[|scan| - 1]];
      var last := scan[|scan| - 1];
      Group(entities, scan[..|scan| - 1], tenant, name) +
      (if last in entities && InGroup(entities[last], tenant, name) then [last] else [])
  }

  /** A listing order names every entity once. */
  ghost predicate Lists(scan: seq<Id>, entities: map<Id, Entity>) {
    Distinct(scan) && forall e :: e in entities ==> e in scan
  }

  function LabelOf(x: Entity): (n: Name)
    ensures n.0 == x.canonical && n.1 == x.kind
  {
    (x.canonical, x.kind)
  }

  /** The same tenant, canonical name and kind. */
  ghost predicate Alike(x: Entity, y: Entity) {
    x.tenant == y.tenant && x.canonical == y.canonical && x.kind == y.kind
  }

  /** The entity that stands for e after the merge: the first of its group. */
  ghost function Keeper(entities: map<Id, Entity>, scan: seq<Id>, tenant: string, e: Id): (k: Id)
    ensures e !in entities ==> k == e
  {
    if e in entities && entities[e].tenant == tenant then
      var g := Group(entities, scan, tenant, LabelOf(entities[e]));
      if g == [] then e else g[0]
    else e
  }

  /** The entities the merge removes. */
  ghost function Surplus(entities: map<Id, Entity>, scan: seq<Id>, tenant: string): set<Id> {
    set e | e in entities && Keeper(entities, scan, tenant, e) != e
  }

  /** References follow the keeper for the entities in `gone`, and stay otherwise. */
  ghost function Follow(t: Tables, scan: seq<Id>, tenant: string, gone: set<Id>, e: Id): Id {
    if e in gone then Keeper(t.entities, scan, tenant, e) else e
  }

  ghost function FollowMention(t: Tables, scan: seq<Id>, tenant: string, gone: set<Id>, x: Mention): Mention {
    x.(entity := Follow(t, scan, tenant, gone, x.entity))
  }

  ghost function FollowClaim(t: Tables, scan: seq<Id>, tenant: string, gone: set<Id>, x: Claim): Claim {
    if x.subject.Some? then x.(subject := Some(Follow(t, scan, tenant, gone, x.subject.value))) else x
  }

  ghost function FollowEnds(t: Tables, scan: seq<Id>, tenant: string, gone: set<Id>, x: Relationship): Relationship {
    x.(subject := Follow(t, scan, tenant, gone, x.subject), target := Follow(t, scan, tenant, gone, x.target))
  }

  /** The tables when the references to `gone` have been rewritten and `deleted` is deleted. */
  ghost function Merged(t: Tables, scan: seq<Id>, tenant: string, gone: set<Id>, deleted: set<Id>): Tables {
    Tables(
      t.entities - deleted,
      map m | m in t.mentions :: FollowMention(t, scan, tenant, gone, t.mentions[m]),
      map c | c in t.claims :: FollowClaim(t, scan, tenant, gone, t.claims[c]),
      map r | r in t.relationships :: FollowEnds(t, scan, tenant, gone, t.relationships[r]),
      t.events)
  }

  // ---- groups and keepers -------------------------------------------------------------------

  lemma {:induction false} GroupDistinct(entities: map<Id, Entity>, scan: seq<Id>, tenant: string, name: Name)
    requires Distinct(scan)
    ensures Distinct(Group(entities, scan, tenant, name))
  {
    if scan != [] {
      assert scan[|scan| - 1] !in scan[..|scan| - 1];
      GroupDistinct(entities, scan[..|scan| - 1], tenant, name);
    }
  }

  /** Removing entities outside a group does not change what its query lists. */
  lemma {:induction false} GroupUnaffected(entities: map<Id, Entity>, less: map<Id, Entity>, scan: seq<Id>,
                                           tenant: string, name: Name)
    requires forall e :: e in entities && InGroup(entities[e], tenant, name) ==> e in less
    requires forall e :: e in less ==> e in entities && less[e] == entities[e]
    ensures Group(less, scan, tenant, name) == Group(entities, scan, tenant, name)
  {
    if scan != [] { GroupUnaffected(entities, less, scan[..|scan| - 1], tenant, name); }
  }

  /** A keeper exists, is an entity of the same tenant and label, and keeps itself. */
  lemma KeeperFacts(entities: map<Id, Entity>, scan: seq<Id>, tenant: string, e: Id)
    requires Lists(scan, entities) && e in entities
    ensures var k := Keeper(entities, scan, tenant, e);
            k in entities && Alike(entities[k], entities[e]) &&
            Keeper(entities, scan, tenant, k) == k && k !in Surplus(entities, scan, tenant) &&
            (entities[e].tenant != tenant ==> k == e)
  {
    if entities[e].tenant == tenant {
      var g := Group(entities, scan, tenant, LabelOf(entities[e]));
      assert e in g;
      assert g[0] in g;
    }
  }

  /** What is listed first of a group is listed before the rest of it. */
  lemma {:induction false} GroupHead(entities: map<Id, Entity>, scan: seq<Id>, tenant: string, name: Name, x: Id)
    requires x in Group(entities, scan, tenant, name)
    ensures x in scan && Group(entities, scan, tenant, name)[0] in scan
    ensures IndexOf(scan, Group(entities, scan, tenant, name)[0]) <= IndexOf(scan, x)
  {
    var front, last := scan[..|scan| - 1], scan[|scan| - 1];
    assert scan == front + [last];
    var g := Group(entities, front, tenant, name);
    if g != [] {
      assert g[0] in g;
      IndexInFront(front, last, g[0]);
      if x in g {
        GroupHead(entities, front, tenant, name, x);
        IndexInFront(front, last, x);
      }
    }
  }

  /** A keeper is listed before every other entity like it. */
  lemma KeeperIsFirst(entities: map<Id, Entity>, scan: seq<Id>, tenant: string, e: Id, x: Id)
    requires Lists(scan, entities) && e in entities && x in entities
    requires entities[e].tenant == tenant && Alike(entities[x], entities[e])
    ensures var k := Keeper(entities, scan, tenant, e);
      k in scan && x in scan && IndexOf(scan, k) <= IndexOf(scan, x)
  {
    GroupHead(entities, scan, tenant, LabelOf(entities[e]), x);
  }

  /** Two entities of the tenant have one keeper exactly when they share a label. */
  lemma SameKeeper(entities: map<Id, Entity>, scan: seq<Id>, tenant: string, x: Id, y: Id)
    requires Lists(scan, entities) && x in entities && y in entities
    requires entities[x].tenant == tenant && entities[y].tenant == tenant
    ensures Keeper(entities, scan, tenant, x) == Keeper(entities, scan, tenant, y)
       <==> Alike(entities[x], entities[y])
  {
    KeeperFacts(entities, scan, tenant, x);
    KeeperFacts(entities, scan, tenant, y);
  }

  // ---- one duplicate ---------------------------------------------------------------------------

  ghost predicate Partway(t: Tables, scan: seq<Id>, tenant: string, gone: set<Id>, dup: Id) {
    Lists(scan, t.entities) && gone <= Surplus(t.entities, scan, tenant) &&
    dup in Surplus(t.entities, scan, tenant) && dup !in gone
  }

  lemma FollowStep(t: Tables, scan: seq<Id>, tenant: string, gone: set<Id>, dup: Id, e: Id)
    requires Partway(t, scan, tenant, gone, dup)
    ensures var keep := Keeper(t.entities, scan, tenant, dup);
            Swap(Follow(t, scan, tenant, gone, e), keep, dup) == Follow(t, scan, tenant, gone + {dup}, e)
    ensures Follow(t, scan, tenant, gone + {dup}, e) != dup
  {
    KeeperFacts(t.entities, scan, tenant, dup);
    if e in gone { KeeperFacts(t.entities, scan, tenant, e); }
  }

  /** Each row after one more rewrite. */
  lemma RowsStep(t: Tables, scan: seq<Id>, tenant: string, gone: set<Id>, dup: Id, m: Mention, c: Claim,
                 r: Relationship)
    requires Partway(t, scan, tenant, gone, dup)
    ensures var keep := Keeper(t.entities, scan, tenant, dup);
            SwapMention(FollowMention(t, scan, tenant, gone, m), keep, dup)
              == FollowMention(t, scan, tenant, gone + {dup}, m) &&
            SwapClaim(FollowClaim(t, scan, tenant, gone, c), keep, dup)
              == FollowClaim(t, scan, tenant, gone + {dup}, c) &&
            SwapTarget(SwapSubject(FollowEnds(t, scan, tenant, gone, r), keep, dup), keep, dup)
              == FollowEnds(t, scan, tenant, gone + {dup}, r)
  {
    FollowStep(t, scan, tenant, gone, dup, m.entity);
    if c.subject.Some? { FollowStep(t, scan, tenant, gone, dup, c.subject.value); }
    FollowStep(t, scan, tenant, gone, dup, r.subject);
    FollowStep(t, scan, tenant, gone, dup, r.target);
  }

  lemma MentionsStep(t: Tables, scan: seq<Id>, tenant: string, gone: set<Id>, deleted: set<Id>, dup: Id)
    requires Partway(t, scan, tenant, gone, dup)
    ensures Redirected(Merged(t, scan, tenant, gone, deleted), Keeper(t.entities, scan, tenant, dup), dup).mentions
         == Merged(t, scan, tenant, gone + {dup}, deleted).mentions
  {
    forall m | m in t.mentions
      ensures SwapMention(FollowMention(t, scan, tenant, gone, t.mentions[m]),
                          Keeper(t.entities, scan, tenant, dup), dup)
           == FollowMention(t, scan, tenant, gone + {dup}, t.mentions[m])
    {
      RowsStep(t, scan, tenant, gone, dup, t.mentions[m], Claim(None, ""), Relationship("", "", ""));
    }
  }

  lemma ClaimsStep(t: Tables, scan: seq<Id>, tenant: string, gone: set<Id>, deleted: set<Id>, dup: Id)
    requires Partway(t, scan, tenant, gone, dup)
    ensures Redirected(Merged(t, scan, tenant, gone, deleted), Keeper(t.entities, scan, tenant, dup), dup).claims
         == Merged(t, scan, tenant, gone + {dup}, deleted).claims
  {
    forall c | c in t.claims
      ensures SwapClaim(FollowClaim(t, scan, tenant, gone, t.claims[c]), Keeper(t.entities, scan, tenant, dup), dup)
           == FollowClaim(t, scan, tenant, gone + {dup}, t.claims[c])
    {
      RowsStep(t, scan, tenant, gone, dup, Mention("", ""), t.claims[c], Relationship("", "", ""));
    }
  }

  lemma RelationshipsStep(t: Tables, scan: seq<Id>, tenant: string, gone: set<Id>, deleted: set<Id>, dup: Id)
    requires Partway(t, scan, tenant, gone, dup)
    ensures Redirected(Merged(t, scan, tenant, gone, deleted), Keeper(t.entities, scan, tenant, dup), dup).relationships
         == Merged(t, scan, tenant, gone + {dup}, deleted).relationships
  {
    var keep := Keeper(t.entities, scan, tenant, dup);
    forall r | r in t.relationships
      ensures SwapTarget(SwapSubject(FollowEnds(t, scan, tenant, gone, t.relationships[r]), keep, dup), keep, dup)
           == FollowEnds(t, scan, tenant, gone + {dup}, t.relationships[r])
    {
      RowsStep(t, scan, tenant, gone, dup, Mention("", ""), Claim(None, ""), t.relationships[r]);
    }
  }

  /** Rewriting the references to one more duplicate. */
  lemma RedirectStep(t: Tables, scan: seq<Id>, tenant: string, gone: set<Id>, deleted: set<Id>, dup: Id)
    requires Partway(t, scan, tenant, gone, dup)
    ensures Redirected(Merged(t, scan, tenant, gone, deleted), Keeper(t.entities, scan, tenant, dup), dup)
         == Merged(t, scan, tenant, gone + {dup}, deleted)
  {
    MentionsStep(t, scan, tenant, gone, deleted, dup);
    ClaimsStep(t, scan, tenant, gone, deleted, dup);
    RelationshipsStep(t, scan, tenant, gone, deleted, dup);
  }

  lemma NothingFollows(t: Tables, scan: seq<Id>, tenant: string, gone: set<Id>, dup: Id)
    requires Partway(t, scan, tenant, gone, dup)
    ensures forall e :: Follow(t, scan, tenant, gone + {dup}, e) != dup
  {
    forall e ensures Follow(t, scan, tenant, gone + {dup}, e) != dup {
      FollowStep(t, scan, tenant, gone, dup, e);
    }
  }

  /** After the rewrite nothing but an event can still name the duplicate, so deleting it is
      refused exactly when an event names it. */
  lemma RestrictsStep(t: Tables, scan: seq<Id>, tenant: string, gone: set<Id>, dup: Id)
    requires Partway(t, scan, tenant, gone, dup)
    ensures Restricts(Merged(t, scan, tenant, gone + {dup}, gone), dup) <==> Named(t, dup)
  {
    NothingFollows(t, scan, tenant, gone, dup);
    var s := Merged(t, scan, tenant, gone + {dup}, gone);
    forall c | c in s.claims ensures s.claims[c].subject != Some(dup) {
      assert s.claims[c] == FollowClaim(t, scan, tenant, gone + {dup}, t.claims[c]);
    }
  }

  /** Deleting the duplicate cascades to no row. */
  lemma DeleteStep(t: Tables, scan: seq<Id>, tenant: string, gone: set<Id>, dup: Id)
    requires Partway(t, scan, tenant, gone, dup)
    ensures Deleted(Merged(t, scan, tenant, gone + {dup}, gone), dup)
         == Merged(t, scan, tenant, gone + {dup}, gone + {dup})
  {
    NothingFollows(t, scan, tenant, gone, dup);
    var s, r := Merged(t, scan, tenant, gone + {dup}, gone), Merged(t, scan, tenant, gone + {dup}, gone + {dup});
    assert Deleted(s, dup).mentions == s.mentions == r.mentions;
    assert Deleted(s, dup).relationships == s.relationships == r.relationships;
    assert Deleted(s, dup).entities == r.entities;
  }

  /** Some event has the entity as its subject. */
  ghost predicate Named(t: Tables, e: Id) {
    exists v :: v in t.events && t.events[v].subject == Some(e)
  }

  // ---- what the rewrite means ---------------------------------------------------------------------

  /** The label a reference stands for. */
  ghost function Meaning(t: Tables, e: Id): Option<(string, string, string)> {
    if e in t.entities then Some((t.entities[e].tenant, t.entities[e].canonical, t.entities[e].kind)) else None
  }

  ghost function ClaimMeaning(t: Tables, c: Claim): Option<(string, string, string)> {
    if c.subject.Some? then Meaning(t, c.subject.value) else None
  }

  ghost predicate SameMention(t: Tables, s: Tables, x: Mention, y: Mention) {
    y.rest == x.rest && Meaning(s, y.entity) == Meaning(t, x.entity)
  }

  ghost predicate SameClaim(t: Tables, s: Tables, x: Claim, y: Claim) {
    y.rest == x.rest && y.subject.Some? == x.subject.Some? && ClaimMeaning(s, y) == ClaimMeaning(t, x)
  }

  ghost predicate SameRelationship(t: Tables, s: Tables, x: Relationship, y: Relationship) {
    y.rest == x.rest && Meaning(s, y.subject) == Meaning(t, x.subject) && Meaning(s, y.target) == Meaning(t, x.target)
  }

  /** Row for row, each mention, claim and relationship says the same about the same labels;
      events are untouched. */
  ghost predicate SameMeaning(t: Tables, s: Tables) {
    KeepsMentions(t, s) && KeepsClaims(t, s) && KeepsRelationships(t, s) && s.events == t.events
  }

  lemma FollowMeaning(t: Tables, scan: seq<Id>, tenant: string, gone: set<Id>, deleted: set<Id>, e: Id)
    requires Lists(scan, t.entities) && deleted <= gone <= Surplus(t.entities, scan, tenant) && e in t.entities
    ensures var s := Merged(t, scan, tenant, gone, deleted); var f := Follow(t, scan, tenant, gone, e);
            f in s.entities && Meaning(s, f) == Meaning(t, e)
  {
    KeeperFacts(t.entities, scan, tenant, e);
  }

  /** References to entities follow to entities that mean the same. */
  ghost predicate Faithful(t: Tables, scan: seq<Id>, tenant: string, gone: set<Id>, s: Tables) {
    forall e {:trigger Follow(t, scan, tenant, gone, e)} :: e in t.entities ==>
      Follow(t, scan, tenant, gone, e) in s.entities && Meaning(s, Follow(t, scan, tenant, gone, e)) == Meaning(t, e)
  }

  /** Table by table: each row keeps its meaning and refers to entities that exist. */
  ghost predicate KeepsMentions(t: Tables, s: Tables) {
    s.mentions.Keys == t.mentions.Keys &&
    forall m :: m in t.mentions ==>
      SameMention(t, s, t.mentions[m], s.mentions[m]) && s.mentions[m].entity in s.entities
  }

  ghost predicate KeepsClaims(t: Tables, s: Tables) {
    s.claims.Keys == t.claims.Keys &&
    forall c :: c in t.claims ==> SameClaim(t, s, t.claims[c], s.claims[c]) && Points(s.claims[c].subject, s.entities)
  }

  ghost predicate KeepsRelationships(t: Tables, s: Tables) {
    s.relationships.Keys == t.relationships.Keys &&
    forall r :: r in t.relationships ==>
      SameRelationship(t, s, t.relationships[r], s.relationships[r]) && Ends(s.relationships[r], s.entities)
  }

  lemma MentionsFollow(t: Tables, scan: seq<Id>, tenant: string, gone: set<Id>, deleted: set<Id>)
    requires Sound(t) && Faithful(t, scan, tenant, gone, Merged(t, scan, tenant, gone, deleted))
    ensures KeepsMentions(t, Merged(t, scan, tenant, gone, deleted))
  {
    var s := Merged(t, scan, tenant, gone, deleted);
    forall m | m in t.mentions
      ensures SameMention(t, s, t.mentions[m], s.mentions[m]) && s.mentions[m].entity in s.entities
    {
      var e := t.mentions[m].entity;
      assert Meaning(s, Follow(t, scan, tenant, gone, e)) == Meaning(t, e);
    }
  }

  lemma ClaimsFollow(t: Tables, scan: seq<Id>, tenant: string, gone: set<Id>, deleted: set<Id>)
    requires Sound(t) && Faithful(t, scan, tenant, gone, Merged(t, scan, tenant, gone, deleted))
    ensures KeepsClaims(t, Merged(t, scan, tenant, gone, deleted))
  {
    var s := Merged(t, scan, tenant, gone, deleted);
    forall c | c in t.claims
      ensures SameClaim(t, s, t.claims[c], s.claims[c]) && Points(s.claims[c].subject, s.entities)
    {
      if t.claims[c].subject.Some? {
        var e := t.claims[c].subject.value;
        assert Meaning(s, Follow(t, scan, tenant, gone, e)) == Meaning(t, e);
      }
    }
  }

  lemma RelationshipsFollow(t: Tables, scan: seq<Id>, tenant: string, gone: set<Id>, deleted: set<Id>)
    requires Sound(t) && Faithful(t, scan, tenant, gone, Merged(t, scan, tenant, gone, deleted))
    ensures KeepsRelationships(t, Merged(t, scan, tenant, gone, deleted))
  {
    var s := Merged(t, scan, tenant, gone, deleted);
    forall r | r in t.relationships
      ensures SameRelationship(t, s, t.relationships[r], s.relationships[r]) && Ends(s.relationships[r], s.entities)
    {
      var x := t.relationships[r];
      assert Meaning(s, Follow(t, scan, tenant, gone, x.subject)) == Meaning(t, x.subject);
      assert Meaning(s, Follow(t, scan, tenant, gone, x.target)) == Meaning(t, x.target);
    }
  }

  lemma MergedIsFaithful(t: Tables, scan: seq<Id>, tenant: string, gone: set<Id>, deleted: set<Id>)
    requires Lists(scan, t.entities) && deleted <= gone <= Surplus(t.entities, scan, tenant)
    ensures Faithful(t, scan, tenant, gone, Merged(t, scan, tenant, gone, deleted))
  {
    forall e | e in t.entities
      ensures Follow(t, scan, tenant, gone, e) in Merged(t, scan, tenant, gone, deleted).entities
      ensures Meaning(Merged(t, scan, tenant, gone, deleted), Follow(t, scan, tenant, gone, e)) == Meaning(t, e)
    {
      FollowMeaning(t, scan, tenant, gone, deleted, e);
    }
  }

  /** Wherever the merge stops, finished or refused, no reference dangles and nothing has
      changed its meaning. */
  lemma MergeKeepsMeaning(t: Tables, scan: seq<Id>, tenant: string, gone: set<Id>, deleted: set<Id>)
    requires Sound(t) && Lists(scan, t.entities) && deleted <= gone <= Surplus(t.entities, scan, tenant)
    requires forall d :: d in deleted ==> !Named(t, d)
    ensures Sound(Merged(t, scan, tenant, gone, deleted)) && SameMeaning(t, Merged(t, scan, tenant, gone, deleted))
  {
    MergedIsFaithful(t, scan, tenant, gone, deleted);
    MentionsFollow(t, scan, tenant, gone, deleted);
    ClaimsFollow(t, scan, tenant, gone, deleted);
    RelationshipsFollow(t, scan, tenant, gone, deleted);
    KeptIsSound(t, Merged(t, scan, tenant, gone, deleted), deleted);
  }

  lemma KeptIsSound(t: Tables, s: Tables, deleted: set<Id>)
    requires Sound(t) && KeepsMentions(t, s) && KeepsClaims(t, s) && KeepsRelationships(t, s)
    requires s.events == t.events && s.entities == t.entities - deleted
    requires forall d :: d in deleted ==> !Named(t, d)
    ensures Sound(s) && SameMeaning(t, s)
  {
    forall v | v in t.events ensures Points(t.events[v].subject, s.entities) {
      if t.events[v].subject.Some? { assert Named(t, t.events[v].subject.value); }
    }
  }

  // ---- the finished merge ------------------------------------------------------------------------------

  ghost function Finished(t: Tables, scan: seq<Id>, tenant: string): Tables {
    var gone := Surplus(t.entities, scan, tenant);
    Merged(t, scan, tenant, gone, gone)
  }

  /** No two entities of the tenant share canonical name and kind. */
  ghost predicate UniqueLabels(entities: map<Id, Entity>, tenant: string) {
    forall x, y :: x in entities && y in entities && Twins(entities, tenant, x, y) ==> x == y
  }

  ghost predicate Twins(entities: map<Id, Entity>, tenant: string, x: Id, y: Id)
    requires x in entities && y in entities
  {
    entities[x].tenant == tenant && entities[y].tenant == tenant &&
    entities[x].canonical == entities[y].canonical && entities[x].kind == entities[y].kind
  }

  /** Afterwards no two entities of the tenant share canonical name and kind. */
  lemma FinishedIsUnique(t: Tables, scan: seq<Id>, tenant: string)
    requires Lists(scan, t.entities)
    ensures UniqueLabels(Finished(t, scan, tenant).entities, tenant)
    ensures var left := Finished(t, scan, tenant).entities;
      forall x, y :: x in left && y in left && left[x].tenant == left[y].tenant == tenant ==>
        left[x].canonical == left[y].canonical && left[x].kind == left[y].kind ==> x == y
  {
    var left := Finished(t, scan, tenant).entities;
    forall x, y | x in left && y in left && Twins(left, tenant, x, y) ensures x == y {
      SameKeeper(t.entities, scan, tenant, x, y);
    }
    forall x, y | x in left && y in left && left[x].tenant == left[y].tenant == tenant &&
                  left[x].canonical == left[y].canonical && left[x].kind == left[y].kind
      ensures x == y
    {
      assert Twins(left, tenant, x, y);
    }
  }

  /** Every entity is still represented, by an entity that means the same; other tenants'
      entities by themselves. */
  lemma FinishedKeepsEntities(t: Tables, scan: seq<Id>, tenant: string, e: Id)
    requires Lists(scan, t.entities) && e in t.entities
    ensures var s, k := Finished(t, scan, tenant), Keeper(t.entities, scan, tenant, e);
            k in s.entities && Meaning(s, k) == Meaning(t, e) && s.entities[k] == t.entities[k] &&
            (t.entities[e].tenant != tenant ==> k == e)
  {
    KeeperFacts(t.entities, scan, tenant, e);
  }

  /** With unique labels there is nothing left to remove, in whatever order the store lists. */
  lemma NothingSurplus(entities: map<Id, Entity>, scan: seq<Id>, tenant: string)
    requires Lists(scan, entities) && UniqueLabels(entities, tenant)
    ensures Surplus(entities, scan, tenant) == {}
  {
    forall e | e in entities ensures Keeper(entities, scan, tenant, e) == e {
      KeeperFacts(entities, scan, tenant, e);
    }
  }

  /** A second run finds nothing to merge and changes nothing. */
  lemma SecondRunIsIdle(t: Tables, scan: seq<Id>, again: seq<Id>, tenant: string)
    requires Lists(scan, t.entities) && Lists(again, Finished(t, scan, tenant).entities)
    ensures var s := Finished(t, scan, tenant);
      Surplus(s.entities, again, tenant) == {} && Finished(s, again, tenant) == s
  {
    var s := Finished(t, scan, tenant);
    FinishedIsUnique(t, scan, tenant);
    NothingSurplus(s.entities, again, tenant);
    assert Merged(s, again, tenant, {}, {}) == s by { MergedNothing(s, again, tenant); }
  }

  lemma MergedNothing(t: Tables, scan: seq<Id>, tenant: string)
    ensures Merged(t, scan, tenant, {}, {}) == t
  {
    var s := Merged(t, scan, tenant, {}, {});
    assert s.entities == t.entities;
    assert s.mentions == t.mentions;
    assert s.claims == t.claims;
    assert s.relationships == t.relationships;
  }

  /** The entity shares its label with another of the tenant. */
  ghost predicate HasTwin(entities: map<Id, Entity>, tenant: string, e: Id) {
    e in entities && exists x :: x in entities && x != e && Twins(entities, tenant, x, e)
  }

  /** Another entity of the tenant, listed earlier, has the same canonical name and kind. */
  ghost predicate ListedLater(entities: map<Id, Entity>, scan: seq<Id>, tenant: string, e: Id) {
    e in entities && e in scan &&
    exists x :: x in entities && x in scan && Twins(entities, tenant, x, e) && IndexOf(scan, x) < IndexOf(scan, e)
  }

  /** The entities the merge removes are those listed after another like them. */
  lemma SurplusIsListedLater(entities: map<Id, Entity>, scan: seq<Id>, tenant: string, e: Id)
    requires Lists(scan, entities)
    ensures e in Surplus(entities, scan, tenant) <==> ListedLater(entities, scan, tenant, e)
  {
    if e in Surplus(entities, scan, tenant) {
      var k := Keeper(entities, scan, tenant, e);
      KeeperFacts(entities, scan, tenant, e);
      KeeperIsFirst(entities, scan, tenant, e, e);
      assert Twins(entities, tenant, k, e);
    }
    if ListedLater(entities, scan, tenant, e) {
      var x :| x in entities && x in scan && Twins(entities, tenant, x, e) && IndexOf(scan, x) < IndexOf(scan, e);
      KeeperIsFirst(entities, scan, tenant, e, x);
    }
  }

  /** No event names an entity that is listed after another like it. */
  ghost predicate CanFinish(t: Tables, scan: seq<Id>, tenant: string) {
    forall v :: v in t.events && t.events[v].subject.Some? ==>
      !ListedLater(t.entities, scan, tenant, t.events[v].subject.value)
  }

  /** That is, no event names an entity that the merge would remove. */
  lemma FinishesIff(t: Tables, scan: seq<Id>, tenant: string)
    requires Lists(scan, t.entities)
    ensures CanFinish(t, scan, tenant) <==> forall d :: d in Surplus(t.entities, scan, tenant) ==> !Named(t, d)
  {
    forall d ensures d in Surplus(t.entities, scan, tenant) <==> ListedLater(t.entities, scan, tenant, d) {
      SurplusIsListedLater(t.entities, scan, tenant, d);
    }
    if CanFinish(t, scan, tenant) {
      forall v, d | v in t.events && t.events[v].subject == Some(d) ensures d !in Surplus(t.entities, scan, tenant) {
        assert !ListedLater(t.entities, scan, tenant, d);
      }
    } else {
      var v :| v in t.events && t.events[v].subject.Some? &&
        ListedLater(t.entities, scan, tenant, t.events[v].subject.value);
      assert Named(t, t.events[v].subject.value);
    }
  }

  lemma SurplusHasTwin(entities: map<Id, Entity>, scan: seq<Id>, tenant: string, e: Id)
    requires Lists(scan, entities) && e in Surplus(entities, scan, tenant)
    ensures HasTwin(entities, tenant, e)
  {
    KeeperFacts(entities, scan, tenant, e);
    assert Twins(entities, tenant, Keeper(entities, scan, tenant, e), e);
  }

  /** A twin is surplus whenever the store lists its twin first. */
  lemma TwinCanBeSurplus(entities: map<Id, Entity>, tenant: string, e: Id, x: Id, rest: seq<Id>)
    requires e in entities && x in entities && x != e && Twins(entities, tenant, x, e)
    requires Lists([x] + rest, entities)
    ensures e in Surplus(entities, [x] + rest, tenant)
  {
    GroupStartsWith(entities, x, rest, tenant, LabelOf(entities[x]));
  }

  lemma {:induction false} GroupStartsWith(entities: map<Id, Entity>, x: Id, rest: seq<Id>, tenant: string, name: Name)
    requires x in entities && InGroup(entities[x], tenant, name)
    ensures Group(entities, [x] + rest, tenant, name) == [x] + Group(entities, rest, tenant, name)
  {
    var scan := [x] + rest;
    if rest == [] {
      assert scan[..0] == [];
    } else {
      assert scan[..|scan| - 1] == [x] + rest[..|rest| - 1];
      GroupStartsWith(entities, x, rest[..|rest| - 1], tenant, name);
    }
  }

  lemma TwinBlocksSomeOrder(t: Tables, tenant: string, all: seq<Id>, e: Id) returns (scan: seq<Id>)
    requires Lists(all, t.entities) && HasTwin(t.entities, tenant, e)
    ensures Lists(scan, t.entities) && e in Surplus(t.entities, scan, tenant)
  {
    var x :| x in t.entities && x != e && Twins(t.entities, tenant, x, e);
    var rest := Without(all, x);
    TwinCanBeSurplus(t.entities, tenant, e, x, rest);
    scan := [x] + rest;
  }

  /** No event names an entity that another of the tenant shares canonical name and kind with. */
  ghost predicate EventsSpareTwins(t: Tables, tenant: string) {
    forall v, x :: v in t.events && x in t.entities ==> !NamesTwinOf(t, tenant, t.events[v].subject, x)
  }

  ghost predicate NamesTwinOf(t: Tables, tenant: string, subject: Option<Id>, x: Id)
    requires x in t.entities
  {
    subject.Some? && subject.value in t.entities && subject.value != x &&
    t.entities[x].tenant == tenant && t.entities[subject.value].tenant == tenant &&
    t.entities[x].canonical == t.entities[subject.value].canonical &&
    t.entities[x].kind == t.entities[subject.value].kind
  }

  lemma SparedTwins(t: Tables, tenant: string)
    ensures EventsSpareTwins(t, tenant) <==> forall e :: HasTwin(t.entities, tenant, e) ==> !Named(t, e)
  {
    if EventsSpareTwins(t, tenant) {
      forall e | Named(t, e) ensures !HasTwin(t.entities, tenant, e) {
        var v :| v in t.events && t.events[v].subject == Some(e);
        forall x | e in t.entities && x in t.entities && x != e ensures !Twins(t.entities, tenant, x, e) {
          assert !NamesTwinOf(t, tenant, t.events[v].subject, x);
        }
      }
    } else {
      var v, x :| v in t.events && x in t.entities && NamesTwinOf(t, tenant, t.events[v].subject, x);
      var e := t.events[v].subject.value;
      assert Twins(t.entities, tenant, x, e);
      assert HasTwin(t.entities, tenant, e) && Named(t, e);
    }
  }

  /** Whatever order the store lists in, the merge finishes: exactly when no event names an
      entity that shares its canonical name and kind with another of the tenant. */
  lemma FinishesInEveryOrder(t: Tables, tenant: string, all: seq<Id>)
    requires Lists(all, t.entities)
    ensures (forall scan :: Lists(scan, t.entities) ==> CanFinish(t, scan, tenant)) <==> EventsSpareTwins(t, tenant)
  {
    SparedTwins(t, tenant);
    if EventsSpareTwins(t, tenant) {
      forall scan | Lists(scan, t.entities) ensures CanFinish(t, scan, tenant) {
        forall d | d in Surplus(t.entities, scan, tenant) ensures !Named(t, d) {
          SurplusHasTwin(t.entities, scan, tenant, d);
        }
        FinishesIff(t, scan, tenant);
      }
    }
    if forall scan :: Lists(scan, t.entities) ==> CanFinish(t, scan, tenant) {
      forall e | HasTwin(t.entities, tenant, e) ensures !Named(t, e) {
        var scan := TwinBlocksSomeOrder(t, tenant, all, e);
        FinishesIff(t, scan, tenant);
      }
    }
  }

  lemma {:induction false} Without(all: seq<Id>, x: Id) returns (rest: seq<Id>)
    requires Distinct(all)
    ensures Distinct([x] + rest) && forall e :: e in all ==> e == x || e in rest
    ensures forall e :: e in rest ==> e in all
  {
    if all == [] {
      rest := [];
    } else {
      var front, last := all[..|all| - 1], all[|all| - 1];
      assert all == front + [last];
      var r := Without(front, x);
      rest := if last == x then r else r + [last];
      assert last !in r;
      assert [x] + (r + [last]) == ([x] + r) + [last];
    }
  }

  /** The refusal is real: two duplicates, the second the subject of an event. */
  lemma EventBlocksMerge() returns (t: Tables, scan: seq<Id>)
    ensures Sound(t) && Lists(scan, t.entities) && !CanFinish(t, scan, "local")
    ensures |scan| == 2 && |t.events| == 1 && t.mentions == map[]
  {
    var x := Entity("local", "alpha", "other", "");
    scan := ["a", "b"];
    t := Tables(map["a" := x, "b" := x], map[], map[], map[], map["v" := Event(Some("b"), "")]);
    assert scan == ["a"] + ["b"];
    assert "a" != "b" by { assert "a"[0] != "b"[0]; }
    TwinCanBeSurplus(t.entities, "local", "b", "a", ["b"]);
    assert t.events["v"].subject == Some("b");
    assert Named(t, "b");
    FinishesIff(t, scan, "local");
  }

  // ---- the agent's run ---------------------------------------------------------------------------------------

  datatype Detail = Detail(kept: Id, removed: Id, canonical: string)
  /** A finished run's answer, or the store's refusal to delete. */
  datatype Outcome = Done(merged: int, details: seq<Detail>) | Refused

  function Members(entities: map<Id, Entity>, tenant: string, name: Name): set<Id> {
    set e | e in entities && InGroup(entities[e], tenant, name)
  }

  /** The groups with more than one row. */
  function Crowded(entities: map<Id, Entity>, tenant: string): set<Name> {
    set e | e in entities && entities[e].tenant == tenant && |Members(entities, tenant, LabelOf(entities[e]))| > 1 ::
      LabelOf(entities[e])
  }

  /** The surplus entities outside the groups still to do. */
  ghost function DoneSurplus(entities: map<Id, Entity>, scan: seq<Id>, tenant: string, todo: set<Name>): set<Id> {
    set e | e in Surplus(entities, scan, tenant) && LabelOf(entities[e]) !in todo
  }

  lemma SurplusIsCrowded(entities: map<Id, Entity>, scan: seq<Id>, tenant: string)
    requires Lists(scan, entities)
    ensures DoneSurplus(entities, scan, tenant, Crowded(entities, tenant)) == {}
  {
    forall e | e in Surplus(entities, scan, tenant) ensures LabelOf(entities[e]) in Crowded(entities, tenant) {
      KeeperFacts(entities, scan, tenant, e);
      var k := Keeper(entities, scan, tenant, e);
      var all := Members(entities, tenant, LabelOf(entities[e]));
      assert e in all && k in all;
      assert |all - {e} - {k}| == |all| - 2;
    }
  }

  /** Within its group the first listed is kept and every other is surplus. */
  lemma GroupSplits(entities: map<Id, Entity>, scan: seq<Id>, tenant: string, name: Name, e: Id)
    requires Lists(scan, entities)
    ensures var g := Group(entities, scan, tenant, name);
            (e in Surplus(entities, scan, tenant) && LabelOf(entities[e]) == name) <==> e in g && e != g[0]
  {
    if e in Surplus(entities, scan, tenant) && LabelOf(entities[e]) == name { KeeperFacts(entities, scan, tenant, e); }
  }

  /** What is listed of a group while other groups have lost their surplus. */
  lemma GroupAsBefore(entities: map<Id, Entity>, scan: seq<Id>, tenant: string, todo: set<Name>, name: Name)
    requires name in todo
    ensures Group(entities - DoneSurplus(entities, scan, tenant, todo), scan, tenant, name)
         == Group(entities, scan, tenant, name)
  {
    GroupUnaffected(entities, entities - DoneSurplus(entities, scan, tenant, todo), scan, tenant, name);
  }

  /** The report names each removed entity once, with what stands for it now. */
  ghost predicate Reports(entities: map<Id, Entity>, scan: seq<Id>, tenant: string, gone: set<Id>, details: seq<Detail>)
  {
    |details| == |gone| &&
    (forall e :: e in gone ==>
      e in entities && Detail(Keeper(entities, scan, tenant, e), e, entities[e].canonical) in details)
  }

  /** Where a refusal leaves the tables: some duplicates merged, the references of one more
      rewritten, and that one still there because an event names it. */
  ghost predicate Stopped(t: Tables, scan: seq<Id>, tenant: string, gone: set<Id>, dup: Id, s: Tables) {
    Partway(t, scan, tenant, gone, dup) && Named(t, dup) && (forall d :: d in gone ==> !Named(t, d)) &&
    s == Merged(t, scan, tenant, gone + {dup}, gone)
  }

  /** Every duplicate in `gone` has been merged and reported. */
  ghost predicate Progress(t: Tables, scan: seq<Id>, tenant: string, gone: set<Id>, details: seq<Detail>, s: Tables) {
    gone <= Surplus(t.entities, scan, tenant) && (forall d :: d in gone ==> !Named(t, d)) &&
    Reports(t.entities, scan, tenant, gone, details) && s == Merged(t, scan, tenant, gone, gone)
  }

  datatype Stop = Stop(gone: set<Id>, dup: Id)

  /** Inside a group: the earlier groups are done, and of this one the first i - 1 duplicates. */
  ghost predicate InGroupDone(t: Tables, scan: seq<Id>, tenant: string, todo: set<Name>, name: Name, i: nat,
                              gone: set<Id>)
  {
    1 <= i <= |Group(t.entities, scan, tenant, name)| &&
    forall e :: e in gone <==>
      e in DoneSurplus(t.entities, scan, tenant, todo) || e in Group(t.entities, scan, tenant, name)[1..i]
  }

  lemma ListedIsSurplus(t: Tables, scan: seq<Id>, tenant: string, name: Name, i: nat)
    requires Lists(scan, t.entities) && 1 <= i < |Group(t.entities, scan, tenant, name)|
    ensures var g := Group(t.entities, scan, tenant, name);
            g[i] in Surplus(t.entities, scan, tenant) && LabelOf(t.entities[g[i]]) == name &&
            Keeper(t.entities, scan, tenant, g[i]) == g[0] && g[i] !in g[1..i] && g[1..i + 1] == g[1..i] + [g[i]]
  {
    var g := Group(t.entities, scan, tenant, name);
    GroupDistinct(t.entities, scan, tenant, name);
    assert g[i] in g;
    GroupSplits(t.entities, scan, tenant, name, g[i]);
  }

  /** The next listed duplicate is surplus, has not been merged yet, and its keeper is the first. */
  lemma ListedIsNext(t: Tables, scan: seq<Id>, tenant: string, todo: set<Name>, name: Name, i: nat, gone: set<Id>)
    requires Lists(scan, t.entities) && name in todo
    requires InGroupDone(t, scan, tenant, todo, name, i, gone) && i < |Group(t.entities, scan, tenant, name)|
    ensures var g := Group(t.entities, scan, tenant, name);
            g[i] in Surplus(t.entities, scan, tenant) && g[i] !in gone &&
            Keeper(t.entities, scan, tenant, g[i]) == g[0] && t.entities[g[i]].canonical == name.0 &&
            InGroupDone(t, scan, tenant, todo, name, i + 1, gone + {g[i]})
  {
    ListedIsSurplus(t, scan, tenant, name, i);
  }

  lemma OneMoreReport(t: Tables, scan: seq<Id>, tenant: string, gone: set<Id>, dup: Id, details: seq<Detail>)
    requires Reports(t.entities, scan, tenant, gone, details) && dup in t.entities && dup !in gone
    ensures Reports(t.entities, scan, tenant, gone + {dup},
      details + [Detail(Keeper(t.entities, scan, tenant, dup), dup, t.entities[dup].canonical)])
  {
  }

  lemma GroupDone(t: Tables, scan: seq<Id>, tenant: string, todo: set<Name>, name: Name, gone: set<Id>)
    requires Lists(scan, t.entities) && name in todo
    requires InGroupDone(t, scan, tenant, todo, name, |Group(t.entities, scan, tenant, name)|, gone)
    ensures gone == DoneSurplus(t.entities, scan, tenant, todo - {name})
  {
    var g := Group(t.entities, scan, tenant, name);
    GroupDistinct(t.entities, scan, tenant, name);
    assert g == [g[0]] + g[1..|g|];
    forall e ensures e in gone <==> e in DoneSurplus(t.entities, scan, tenant, todo - {name}) {
      GroupSplits(t.entities, scan, tenant, name, e);
      if e in g[1..|g|] { assert e in g; }
    }
  }

  /** A group of one has no surplus. */
  lemma SmallGroupDone(t: Tables, scan: seq<Id>, tenant: string, todo: set<Name>, name: Name)
    requires Lists(scan, t.entities) && |Group(t.entities, scan, tenant, name)| < 2
    ensures DoneSurplus(t.entities, scan, tenant, todo - {name}) == DoneSurplus(t.entities, scan, tenant, todo)
  {
    forall e | e in Surplus(t.entities, scan, tenant) ensures LabelOf(t.entities[e]) != name {
      GroupSplits(t.entities, scan, tenant, name, e);
    }
  }

  lemma AllDone(t: Tables, scan: seq<Id>, tenant: string)
    ensures DoneSurplus(t.entities, scan, tenant, {}) == Surplus(t.entities, scan, tenant)
    ensures |t.entities| - |Surplus(t.entities, scan, tenant)| == |Finished(t, scan, tenant).entities|
  {
    var gone := Surplus(t.entities, scan, tenant);
    assert gone <= t.entities.Keys;
    assert Finished(t, scan, tenant).entities.Keys == t.entities.Keys - gone;
  }

  lemma MergeKeepsMeaningIfSound(t: Tables, scan: seq<Id>, tenant: string, gone: set<Id>, deleted: set<Id>)
    requires Lists(scan, t.entities) && deleted <= gone <= Surplus(t.entities, scan, tenant)
    requires forall d :: d in deleted ==> !Named(t, d)
    ensures Sound(t) ==>
      Sound(Merged(t, scan, tenant, gone, deleted)) && SameMeaning(t, Merged(t, scan, tenant, gone, deleted))
  {
    if Sound(t) { MergeKeepsMeaning(t, scan, tenant, gone, deleted); }
  }

  class Database {
    var entities: map<Id, Entity>
    var mentions: map<Id, Mention>
    var claims: map<Id, Claim>
    var relationships: map<Id, Relationship>
    var events: map<Id, Event>

    constructor (t: Tables)
      ensures Rows() == t
    {
      entities, mentions, claims, relationships, events := t.entities, t.mentions, t.claims, t.relationships, t.events;
    }

    function Rows(): Tables
      reads this
    {
      Tables(entities, mentions, claims, relationships, events)
    }

    /** The two UPDATE statements on relationships. */
    method RedirectEnds(keep: Id, dup: Id)
      modifies `relationships
      ensures relationships == map r | r in old(relationships) ::
        SwapTarget(SwapSubject(old(relationships)[r], keep, dup), keep, dup)
    {
      relationships := map r | r in relationships :: SwapSubject(relationships[r], keep, dup);
      relationships := map r | r in relationships :: SwapTarget(relationships[r], keep, dup);
    }

    /** The four UPDATE statements. */
    method Redirect(keep: Id, dup: Id)
      modifies this
      ensures Rows() == Redirected(old(Rows()), keep, dup)
      ensures keep != dup ==> Forgotten(old(Rows()), Rows(), keep, dup)
    {
      if keep != dup { RedirectedForgets(Rows(), keep, dup); }
      mentions := map m | m in mentions :: SwapMention(mentions[m], keep, dup);
      claims := map c | c in claims :: SwapClaim(claims[c], keep, dup);
      RedirectEnds(keep, dup);
    }

    /** The DELETE statement, under the foreign keys of the schema. */
    method DeleteEntity(e: Id) returns (refused: bool)
      modifies this
      ensures refused <==>
        (exists c :: c in old(claims) && old(claims)[c].subject == Some(e)) ||
        (exists v :: v in old(events) && old(events)[v].subject == Some(e))
      ensures Rows() == if refused then old(Rows()) else Deleted(old(Rows()), e)
      ensures mentions.Keys <= old(mentions.Keys) && relationships.Keys <= old(relationships.Keys)
      ensures claims == old(claims) && events == old(events)
      ensures !refused ==> e !in entities && Unreferenced(Rows(), e) && KeepsOthers(old(Rows()), Rows(), e)
      ensures Sound(old(Rows())) ==> Sound(Rows()) && (refused <==> !Sound(Deleted(old(Rows()), e)))
    {
      if Sound(Rows()) { RefusalIsNeeded(Rows(), e); }
      refused := Restricts(Rows(), e);
      if !refused {
        var after := Deleted(Rows(), e);
        entities, mentions, relationships := after.entities, after.mentions, after.relationships;
      }
    }

    /** Merging one duplicate away: refused exactly when an event names it. */
    method MergeOne(keep: Id, dup: Id, canonical: string, before: seq<Detail>,
                    ghost t: Tables, ghost scan: seq<Id>, ghost tenant: string, ghost gone: set<Id>)
      returns (refused: bool, details: seq<Detail>)
      requires Partway(t, scan, tenant, gone, dup) && keep == Keeper(t.entities, scan, tenant, dup)
      requires canonical == t.entities[dup].canonical
      requires Progress(t, scan, tenant, gone, before, Rows())
      modifies this
      ensures refused <==> Named(t, dup)
      ensures refused ==> Stopped(t, scan, tenant, gone, dup, Rows())
      ensures !refused ==> Progress(t, scan, tenant, gone + {dup}, details, Rows())
    {
      Redirect(keep, dup);
      RedirectStep(t, scan, tenant, gone, gone, dup);
      RestrictsStep(t, scan, tenant, gone, dup);
      DeleteStep(t, scan, tenant, gone, dup);
      OneMoreReport(t, scan, tenant, gone, dup, before);
      refused := DeleteEntity(dup);
      details := if refused then before else before + [Detail(keep, dup, canonical)];
    }

    /** The inner loop: every listed duplicate but the first is merged into the first. */
    method MergeGroup(duplicates: seq<Id>, name: Name, before: seq<Detail>,
                      ghost t: Tables, ghost scan: seq<Id>, ghost tenant: string, ghost todo: set<Name>)
      returns (refused: bool, details: seq<Detail>, ghost stop: Stop)
      requires Lists(scan, t.entities) && name in todo
      requires duplicates == Group(t.entities, scan, tenant, name) && |duplicates| >= 2
      requires Progress(t, scan, tenant, DoneSurplus(t.entities, scan, tenant, todo), before, Rows())
      modifies this
      ensures refused ==> Stopped(t, scan, tenant, stop.gone, stop.dup, Rows())
      ensures !refused ==>
        Progress(t, scan, tenant, DoneSurplus(t.entities, scan, tenant, todo - {name}), details, Rows())
    {
      ghost var gone := DoneSurplus(t.entities, scan, tenant, todo);
      details := before;
      stop := Stop({}, "");
      refused := false;
      var i := 1;
      while i < |duplicates|
        invariant 1 <= i <= |duplicates|
        invariant InGroupDone(t, scan, tenant, todo, name, i, gone)
        invariant Progress(t, scan, tenant, gone, details, Rows())
      {
        ListedIsNext(t, scan, tenant, todo, name, i, gone);
        refused, details := MergeOne(duplicates[0], duplicates[i], name.0, details, t, scan, tenant, gone);
        if refused {
          stop := Stop(gone, duplicates[i]);
          return;
        }
        gone := gone + {duplicates[i]};
        i := i + 1;
      }
      GroupDone(t, scan, tenant, todo, name, gone);
    }

    /** The body of the outer loop: the group of one name, looked up as the tables are now. */
    method MergeName(name: Name, before: seq<Detail>, ghost t: Tables, scan: seq<Id>, tenant: string,
                     ghost todo: set<Name>)
      returns (refused: bool, details: seq<Detail>, ghost stop: Stop)
      requires Lists(scan, t.entities) && name in todo
      requires Progress(t, scan, tenant, DoneSurplus(t.entities, scan, tenant, todo), before, Rows())
      modifies this
      ensures refused ==> Stopped(t, scan, tenant, stop.gone, stop.dup, Rows())
      ensures !refused ==>
        Progress(t, scan, tenant, DoneSurplus(t.entities, scan, tenant, todo - {name}), details, Rows())
    {
      GroupAsBefore(t.entities, scan, tenant, todo, name);
      var duplicates := Group(entities, scan, tenant, name);
      if |duplicates| < 2 {
        SmallGroupDone(t, scan, tenant, todo, name);
        return false, before, Stop({}, "");
      }
      refused, details, stop := MergeGroup(duplicates, name, before, t, scan, tenant, todo);
    }

    /** One merge run over a tenant, the duplicate queries listing rows in the order of `scan`.
        It finishes exactly when no event names a surplus entity; then the tables are the
        finished merge. Refused, it has stopped at such an entity. Either way no reference
        dangles and every row means what it meant. */
    method Run(tenant: string, scan: seq<Id>) returns (outcome: Outcome, ghost stop: Stop)
      requires Lists(scan, entities)
      modifies this
      ensures outcome.Done? <==> CanFinish(old(Rows()), scan, tenant)
      ensures outcome.Done? ==>
        Rows() == Finished(old(Rows()), scan, tenant) &&
        Reports(old(entities), scan, tenant, Surplus(old(entities), scan, tenant), outcome.details) &&
        outcome.merged == |outcome.details| == |old(entities)| - |entities|
      ensures outcome.Done? ==>
        forall x, y :: x in entities && y in entities && entities[x].tenant == entities[y].tenant == tenant ==>
          entities[x].canonical == entities[y].canonical && entities[x].kind == entities[y].kind ==> x == y
      ensures outcome.Refused? ==> Stopped(old(Rows()), scan, tenant, stop.gone, stop.dup, Rows())
      ensures Sound(old(Rows())) ==> Sound(Rows()) && SameMeaning(old(Rows()), Rows())
    {
      ghost var t := Rows();
      FinishesIff(t, scan, tenant);
      var merged, details := 0, [];
      stop := Stop({}, "");
      SurplusIsCrowded(entities, scan, tenant);
      MergedNothing(t, scan, tenant);
      var todo := Crowded(entities, tenant);
      while todo != {}
        invariant merged == |details|
        invariant Progress(t, scan, tenant, DoneSurplus(t.entities, scan, tenant, todo), details, Rows())
        decreases |todo|
      {
        var name :| name in todo;
        var refused;
        refused, details, stop := MergeName(name, details, t, scan, tenant, todo);
        if refused {
          MergeKeepsMeaningIfSound(t, scan, tenant, stop.gone + {stop.dup}, stop.gone);
          return Refused, stop;
        }
        merged := |details|;
        todo := todo - {name};
      }
      AllDone(t, scan, tenant);
      FinishedIsUnique(t, scan, tenant);
      MergeKeepsMeaningIfSound(t, scan, tenant, Surplus(t.entities, scan, tenant), Surplus(t.entities, scan, tenant));
      outcome := Done(merged, details);
    }
  }
}
