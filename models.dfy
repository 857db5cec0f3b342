/**
 * models.py: the three stored records, their column bounds, the derived
 * properties of a giveaway, and the relations between giveaways and entries
 * that every state of the store keeps.
 *
 * Records carry no id: the store keys each map by the record's primary key.
 * Dates are whole numbers on one clock (see README).
 */
module Models {
  import opened Wrappers
  import Sets

  datatype Admin = Admin(username: string, passwordHash: string, createdAt: int)

  datatype Giveaway = Giveaway(
    title: string,
    description: string,
    prize: string,
    image: Option<string>,   // stored upload name, NULL when none
    startDate: int,
    endDate: int,
    createdAt: int)

  datatype Entry = Entry(
    giveawayId: int,
    name: string,
    email: string,
    phone: string,
    createdAt: int)

  /** Column widths: String(64) for the username. */
  predicate AdminFits(a: Admin)
  {
    |a.username| <= 64
  }

  /** Column widths: String(100) title, String(200) prize. */
  predicate GiveawayFits(g: Giveaway)
  {
    |g.title| <= 100 && |g.prize| <= 200
  }

  /** Column widths: String(100) name and email, String(20) phone. */
  predicate EntryFits(e: Entry)
  {
    |e.name| <= 100 && |e.email| <= 100 && |e.phone| <= 20
  }

  /** Giveaway.is_active: the current time lies within the giveaway's window, ends included. */
  predicate IsActive(g: Giveaway, now: int)
    ensures IsActive(g, now) ==> g.startDate <= g.endDate
  {
    g.startDate <= now <= g.endDate
  }

  /**
   * is_active is a closed window: it holds at both ends, at no time after the
   * end or before the start, and at every time between two active moments.
   */
  lemma IsActiveWindow(g: Giveaway, t1: int, t: int, t2: int)
    ensures g.startDate <= g.endDate ==> IsActive(g, g.startDate) && IsActive(g, g.endDate)
    ensures t > g.endDate || t < g.startDate ==> !IsActive(g, t)
    ensures IsActive(g, t1) && IsActive(g, t2) && t1 <= t <= t2 ==> IsActive(g, t)
  {
  }

  /** The rows of `giveaway.entries`: ids of the entries whose foreign key is `giveawayId`. */
  function EntryIds(entries: map<int, Entry>, giveawayId: int): (r: set<int>)
    ensures r <= entries.Keys
    ensures forall id :: id in entries && entries[id].giveawayId == giveawayId ==> id in r
    ensures forall id :: id in r ==> entries[id].giveawayId == giveawayId
  {
    set id | id in entries && entries[id].giveawayId == giveawayId
  }

  /** Giveaway.entry_count: `len(self.entries)`. */
  function EntryCount(entries: map<int, Entry>, giveawayId: int): (n: nat)
    ensures n <= |entries|
    ensures n == 0 <==> forall id :: id in entries ==> entries[id].giveawayId != giveawayId
  {
    var ids := EntryIds(entries, giveawayId);
    Sets.SubsetCard(ids, entries.Keys);
    assert |entries.Keys| == |entries|;
    assert (forall id :: id in entries ==> entries[id].giveawayId != giveawayId) ==> ids == {};
    |ids|
  }

  /** Giveaway.image truthiness: a non-NULL, non-empty stored name. */
  predicate HasImage(g: Giveaway)
  {
    g.image.Some? && g.image.value != ""
  }

  const UploadsPrefix: string := "/static/uploads/"
  const DefaultImageUrl: string := "/static/img/default-giveaway.svg"

  /** Giveaway.image_url: the upload's static path, or the default picture. */
  function ImageUrl(g: Giveaway): (r: string)
    ensures r != ""
    ensures r == DefaultImageUrl <==> !HasImage(g)
    ensures HasImage(g) ==> r == UploadsPrefix + g.image.value
  {
    if HasImage(g) then
      var r := UploadsPrefix + g.image.value;
      assert r[8] != DefaultImageUrl[8];
      r
    else DefaultImageUrl
  }

  /** Admin.username is UNIQUE. */
  predicate UsernamesUnique(admins: map<int, Admin>)
  {
    forall a, b :: a in admins && b in admins && admins[a].username == admins[b].username ==> a == b
  }

  /** Entry.giveaway_id is a NOT NULL foreign key into the giveaways. */
  predicate EntriesReferenceGiveaways(giveaways: map<int, Giveaway>, entries: map<int, Entry>)
  {
    forall id :: id in entries ==> entries[id].giveawayId in giveaways
  }

  /** At most one entry per (giveaway_id, email); kept by the entry route, not by the schema. */
  predicate EmailsUnique(entries: map<int, Entry>)
  {
    forall a, b ::
      a in entries && b in entries &&
      entries[a].giveawayId == entries[b].giveawayId && entries[a].email == entries[b].email
      ==> a == b
  }

  /**
   * `Entry.query.filter_by(giveaway_id=..., email=...).first()` finds a row:
   * the email is among those that entered the giveaway (exact comparison).
   */
  predicate EmailEntered(entries: map<int, Entry>, giveawayId: int, email: string)
    ensures EmailEntered(entries, giveawayId, email) <==> email in EmailsOf(entries, giveawayId)
  {
    exists id :: id in entries && entries[id].giveawayId == giveawayId && entries[id].email == email
  }

  /**
   * Deleting a giveaway removes its entries: the relationship's
   * "all, delete-orphan" cascade, and equally the explicit
   * `Entry.query.filter_by(giveaway_id=...).delete()` of the delete route.
   */
  function Cascade(entries: map<int, Entry>, giveawayId: int): (r: map<int, Entry>)
    ensures forall id :: id in r <==> id in entries && entries[id].giveawayId != giveawayId
    ensures forall id :: id in r ==> r[id] == entries[id]
  {
    map id | id in entries && entries[id].giveawayId != giveawayId :: entries[id]
  }

  /** After the cascade no orphan is left and no giveaway has two entries with one email. */
  lemma CascadeKeepsInvariants(giveaways: map<int, Giveaway>, entries: map<int, Entry>, giveawayId: int)
    requires EntriesReferenceGiveaways(giveaways, entries)
    requires EmailsUnique(entries)
    ensures EntriesReferenceGiveaways(giveaways - {giveawayId}, Cascade(entries, giveawayId))
    ensures EmailsUnique(Cascade(entries, giveawayId))
  {
  }

  /** The deleted giveaway's count drops to zero; every other giveaway keeps its count. */
  lemma CascadeEntryCount(entries: map<int, Entry>, giveawayId: int, other: int)
    ensures EntryCount(Cascade(entries, giveawayId), giveawayId) == 0
    ensures other != giveawayId ==>
              EntryCount(Cascade(entries, giveawayId), other) == EntryCount(entries, other)
  {
    if other != giveawayId {
      assert EntryIds(Cascade(entries, giveawayId), other) == EntryIds(entries, other);
    }
  }

  /** Adding one entry raises its giveaway's count by one and leaves the others alone. */
  lemma InsertEntryCount(entries: map<int, Entry>, id: int, e: Entry, other: int)
    requires id !in entries
    ensures EntryCount(entries[id := e], e.giveawayId) == EntryCount(entries, e.giveawayId) + 1
    ensures other != e.giveawayId ==> EntryCount(entries[id := e], other) == EntryCount(entries, other)
  {
    assert EntryIds(entries[id := e], e.giveawayId) == EntryIds(entries, e.giveawayId) + {id};
    if other != e.giveawayId {
      assert EntryIds(entries[id := e], other) == EntryIds(entries, other);
    }
  }

  /** Removing one entry lowers its giveaway's count by one and leaves the others alone. */
  lemma RemoveEntryCount(entries: map<int, Entry>, id: int, other: int)
    requires id in entries
    ensures EntryCount(entries - {id}, entries[id].giveawayId) == EntryCount(entries, entries[id].giveawayId) - 1
    ensures other != entries[id].giveawayId ==> EntryCount(entries - {id}, other) == EntryCount(entries, other)
  {
    var g := entries[id].giveawayId;
    assert EntryIds(entries, g) == EntryIds(entries - {id}, g) + {id};
    if other != g {
      assert EntryIds(entries - {id}, other) == EntryIds(entries, other);
    }
  }

  /** A new entry whose email is not yet entered for its giveaway keeps emails unique. */
  lemma InsertKeepsEmailsUnique(entries: map<int, Entry>, id: int, e: Entry)
    requires EmailsUnique(entries)
    requires id !in entries
    requires !EmailEntered(entries, e.giveawayId, e.email)
    ensures EmailsUnique(entries[id := e])
  {
    var es := entries[id := e];
    forall a, b | a in es && b in es && es[a].giveawayId == es[b].giveawayId && es[a].email == es[b].email
      ensures a == b
    {
      assert a != id && b != id ==> entries[a] == es[a] && entries[b] == es[b];
    }
  }

  /** The distinct emails that have entered a giveaway. */
  function EmailsOf(entries: map<int, Entry>, giveawayId: int): (r: set<string>)
    ensures forall id :: id in EntryIds(entries, giveawayId) ==> entries[id].email in r
  {
    set id | id in EntryIds(entries, giveawayId) :: entries[id].email
  }

  /** With emails unique per giveaway, entry_count is the number of distinct emails that entered. */
  lemma EntryCountIsDistinctEmails(entries: map<int, Entry>, giveawayId: int)
    requires EmailsUnique(entries)
    ensures EntryCount(entries, giveawayId) == |EmailsOf(entries, giveawayId)|
  {
    EmailsOfCard(EntryIds(entries, giveawayId), entries, giveawayId);
  }

  lemma {:induction false} EmailsOfCard(ids: set<int>, entries: map<int, Entry>, giveawayId: int)
    requires EmailsUnique(entries)
    requires ids <= EntryIds(entries, giveawayId)
    ensures |ids| == |set id | id in ids :: entries[id].email|
    decreases ids
  {
    if ids != {} {
      var x := Sets.Pick(ids);
      var rest := ids - {x};
      EmailsOfCard(rest, entries, giveawayId);
      var emails := set id | id in ids :: entries[id].email;
      var restEmails := set id | id in rest :: entries[id].email;
      assert emails == restEmails + {entries[x].email};
      assert entries[x].email !in restEmails;
    }
  }
}
