/**
 * The state-changing routes of app.py and the start-up bootstrap.
 *
 * `Store` holds what the database and the upload folder hold: three tables as
 * maps from primary key to record, the set of stored upload names, and the
 * next value of each autoincrement key. `Session` holds the two session keys
 * the admin routes use. Every handler is modelled for a submitted (POST)
 * request; rendering the form again is the `Invalid` response.
 */
module App {
  import opened Wrappers
  import opened Models
  import opened Forms
  import opened Helpers
  import Listings

  /** The admin name that the bootstrap removes, and the one it guarantees. */
  const RetiredAdminName: string := "admin"
  const AdminName: string := "yameenking99"

  /** What a handler answers: the redirect it issues or the error it reports. */
  datatype Response =
    | EntryCreated(entryId: int)        // redirect to the entry confirmation
    | GiveawaySaved(giveawayId: int)    // redirect to the dashboard after add or edit
    | GiveawayDeleted
    | EntryDeleted(giveawayId: int)     // redirect to that giveaway's entries
    | LoggedIn
    | AlreadyLoggedIn
    | NotFound                          // get_or_404
    | Invalid(errors: seq<FieldError>)  // the form is shown again with these messages
    | Closed                            // "This giveaway has ended."
    | Duplicate                         // "You have already entered this giveaway."
    | Unauthorized(next: string)        // admin_required: redirect to login with `next`
    | BadCredentials

  /** Some admin has this username and `checkPassword(hash, password)` accepts its hash. */
  predicate CredentialsMatch(admins: map<int, Admin>, username: string, password: string,
                             checkPassword: (string, string) -> bool)
    ensures CredentialsMatch(admins, username, password, checkPassword) ==>
              exists id :: id in admins && admins[id].username == username
  {
    exists id :: id in admins && admins[id].username == username
                 && checkPassword(admins[id].passwordHash, password)
  }

  /**
   * With unique usernames, looking the admin up by name and checking that one
   * hash (`filter_by(username=...).first()`) decides the same as searching all admins.
   */
  lemma CredentialsDecidedByLookup(admins: map<int, Admin>, username: string, password: string,
                                   checkPassword: (string, string) -> bool, id: int)
    requires UsernamesUnique(admins)
    requires id in admins && admins[id].username == username
    ensures CredentialsMatch(admins, username, password, checkPassword) <==>
              checkPassword(admins[id].passwordHash, password)
  {
    if CredentialsMatch(admins, username, password, checkPassword) {
      var other :| other in admins && admins[other].username == username
                   && checkPassword(admins[other].passwordHash, password);
      assert other == id;
    }
  }

  /** The route stores an upload: `form.image.data` is set and allowed_file accepts its name. */
  predicate NewImage(image: Option<string>)
    ensures NewImage(image) ==> FileSupplied(image) && '.' in image.value && |image.value| >= 4
  {
    FileSupplied(image) && AllowedFile(image.value)
  }

  /** For a form that validated, the route's allowed_file check always passes: a chosen file is stored. */
  lemma ValidFormStoresChosenFile(data: GiveawayData, isEdit: bool, now: int)
    requires ValidGiveaway(data, isEdit, now)
    ensures NewImage(data.image) <==> FileSupplied(data.image)
  {
    if FileSupplied(data.image) {
      ImageNameAllowedIffAllowedFile(data.image.value);
    }
  }

  /** `f"{uuid.uuid4().hex}_{secure_filename(name)}"`, from the two library results. */
  function UploadName(uuidHex: string, secureName: string): (r: string)
    ensures |r| == |uuidHex| + 1 + |secureName| && r[|uuidHex|] == '_'
    ensures r[..|uuidHex|] == uuidHex && r[|uuidHex| + 1..] == secureName
  {
    uuidHex + "_" + secureName
  }

  /** The upload-folder file a giveaway owns, if any. */
  function ImageFiles(g: Giveaway): (r: set<string>)
    ensures r == {} <==> !HasImage(g)
  {
    if HasImage(g) then {g.image.value} else {}
  }

  /**
   * The store's invariant: keys below their counters, column widths, end
   * after start, usernames unique, every entry pointing at a giveaway, one
   * entry per email per giveaway.
   */
  ghost predicate Consistent(admins: map<int, Admin>, giveaways: map<int, Giveaway>, entries: map<int, Entry>,
                             nextAdminId: nat, nextGiveawayId: nat, nextEntryId: nat)
  {
    && (forall id :: id in admins ==> id < nextAdminId && AdminFits(admins[id]))
    && UsernamesUnique(admins)
    && (forall id :: id in giveaways ==>
          id < nextGiveawayId && GiveawayFits(giveaways[id])
          && giveaways[id].startDate < giveaways[id].endDate)
    && (forall id :: id in entries ==> id < nextEntryId && EntryFits(entries[id]))
    && EntriesReferenceGiveaways(giveaways, entries)
    && EmailsUnique(entries)
  }

  /** Under the invariant no entry is orphaned: a key that is not a giveaway has no entries. */
  lemma ConsistentHasNoOrphans(admins: map<int, Admin>, giveaways: map<int, Giveaway>, entries: map<int, Entry>,
                               nextAdminId: nat, nextGiveawayId: nat, nextEntryId: nat, giveawayId: int)
    requires Consistent(admins, giveaways, entries, nextAdminId, nextGiveawayId, nextEntryId)
    requires giveawayId !in giveaways
    ensures EntryCount(entries, giveawayId) == 0
  {
  }

  /** Storing a giveaway that fits its columns and ends after it starts keeps the invariant. */
  lemma PutGiveawayConsistent(admins: map<int, Admin>, giveaways: map<int, Giveaway>, entries: map<int, Entry>,
                              nextAdminId: nat, nextGiveawayId: nat, nextEntryId: nat,
                              id: int, g: Giveaway, newNextGiveawayId: nat)
    requires Consistent(admins, giveaways, entries, nextAdminId, nextGiveawayId, nextEntryId)
    requires id < newNextGiveawayId && nextGiveawayId <= newNextGiveawayId
    requires GiveawayFits(g) && g.startDate < g.endDate
    ensures Consistent(admins, giveaways[id := g], entries, nextAdminId, newNextGiveawayId, nextEntryId)
  {
  }

  /** The session cookie's two admin keys. */
  class Session {
    var adminLoggedIn: bool
    var adminId: Option<int>

    constructor ()
      ensures !adminLoggedIn && adminId == None
    {
      adminLoggedIn := false;
      adminId := None;
    }

    /** admin_logout: pops both keys whatever the state was. */
    method Logout()
      modifies this
      ensures !adminLoggedIn && adminId == None
    {
      adminLoggedIn := false;
      adminId := None;
    }
  }

  class Store {
    var admins: map<int, Admin>
    var giveaways: map<int, Giveaway>
    var entries: map<int, Entry>
    var uploads: set<string>
    var nextAdminId: nat
    var nextGiveawayId: nat
    var nextEntryId: nat

    /**
     * The schema's constraints and the rules the routes keep; see `Consistent`.
     * Each counter names a key not yet used, so the next insert gets a fresh id.
     */
    ghost predicate Valid()
      reads this
      ensures Valid() ==> nextAdminId !in admins && nextGiveawayId !in giveaways && nextEntryId !in entries
    {
      Consistent(admins, giveaways, entries, nextAdminId, nextGiveawayId, nextEntryId)
    }

    /** `db.create_all()` on an empty database, with an empty upload folder. */
    constructor ()
      ensures Valid()
      ensures admins == map[] && giveaways == map[] && entries == map[] && uploads == {}
    {
      admins, giveaways, entries, uploads := map[], map[], map[], {};
      nextAdminId, nextGiveawayId, nextEntryId := 1, 1, 1;
    }

    /**
     * Start-up: delete the admin named "admin" if there is one, then create
     * "yameenking99" with the given password hash unless it exists.
     */
    method Bootstrap(passwordHash: string, now: int)
      requires Valid()
      modifies this
      ensures Valid()
      ensures forall id :: id in admins ==> admins[id].username != RetiredAdminName
      ensures exists id :: id in admins && admins[id].username == AdminName
      ensures forall id :: id in old(admins) && old(admins)[id].username != RetiredAdminName ==>
                id in admins && admins[id] == old(admins)[id]
      ensures forall id :: id in admins && id !in old(admins) ==> admins[id] == Admin(AdminName, passwordHash, now)
      ensures (forall id :: id in old(admins) ==> old(admins)[id].username != RetiredAdminName)
              && (exists id :: id in old(admins) && old(admins)[id].username == AdminName)
              ==> unchanged(this)
      ensures giveaways == old(giveaways) && entries == old(entries) && uploads == old(uploads)
    {
      if exists id :: id in admins && admins[id].username == RetiredAdminName {
        var id :| id in admins && admins[id].username == RetiredAdminName;
        admins := admins - {id};
      }
      if !exists id :: id in admins && admins[id].username == AdminName {
        var id := nextAdminId;
        admins := admins[id := Admin(AdminName, passwordHash, now)];
        nextAdminId := nextAdminId + 1;
        assert admins[id].username == AdminName;
      }
    }

    /**
     * admin_login. An existing session is sent on; otherwise the form is
     * checked, the admin looked up by username and the password checked
     * against its hash. Only success writes the session.
     */
    method Login(session: Session, form: LoginForm, checkPassword: (string, string) -> bool)
      returns (out: Response)
      requires Valid()
      modifies session
      ensures old(session.adminLoggedIn) ==> out == AlreadyLoggedIn && unchanged(session)
      ensures !old(session.adminLoggedIn) && !ValidLogin(form) ==>
                out == Invalid(LoginErrors(form)) && unchanged(session)
      ensures !old(session.adminLoggedIn) && ValidLogin(form) ==>
                (out == LoggedIn <==> CredentialsMatch(admins, form.username, form.password, checkPassword))
      ensures out == LoggedIn ==>
                && session.adminLoggedIn && session.adminId.Some?
                && session.adminId.value in admins
                && admins[session.adminId.value].username == form.username
                && checkPassword(admins[session.adminId.value].passwordHash, form.password)
      ensures out != LoggedIn ==> unchanged(session)
      ensures (!old(session.adminLoggedIn) && ValidLogin(form)
               && !CredentialsMatch(admins, form.username, form.password, checkPassword)) ==> out == BadCredentials
      ensures out in {LoggedIn, AlreadyLoggedIn, BadCredentials} || out.Invalid?
    {
      if session.adminLoggedIn {
        return AlreadyLoggedIn;
      }
      var errors := LoginErrors(form);
      if errors != [] {
        return Invalid(errors);
      }
      if exists id :: id in admins && admins[id].username == form.username {
        var id :| id in admins && admins[id].username == form.username;
        if checkPassword(admins[id].passwordHash, form.password) {
          session.adminLoggedIn := true;
          session.adminId := Some(id);
          return LoggedIn;
        }
      }
      return BadCredentials;
    }

    /**
     * giveaway_detail on submit: not found, then the form, then "ended",
     * then "already entered"; only when all pass is one entry added.
     */
    method SubmitEntry(giveawayId: int, form: EntryForm, emailOk: bool, now: int) returns (out: Response)
      requires Valid()
      modifies this
      ensures Valid()
      ensures admins == old(admins) && giveaways == old(giveaways) && uploads == old(uploads)
      ensures giveawayId !in giveaways ==> out == NotFound
      ensures giveawayId in giveaways && !ValidEntry(form, emailOk) ==>
                out == Invalid(EntryErrors(form, emailOk))
      ensures giveawayId in giveaways && ValidEntry(form, emailOk) && giveaways[giveawayId].endDate < now ==>
                out == Closed
      ensures giveawayId in giveaways && ValidEntry(form, emailOk) && now <= giveaways[giveawayId].endDate ==>
                (out == Duplicate <==> EmailEntered(old(entries), giveawayId, form.email))
                && (out != Duplicate ==> out.EntryCreated?)
      ensures out.EntryCreated? ==>
                && out.entryId !in old(entries)
                && entries == old(entries)[out.entryId := Entry(giveawayId, form.name, form.email, form.phone, now)]
                && EntryCount(entries, giveawayId) == EntryCount(old(entries), giveawayId) + 1
      ensures !out.EntryCreated? ==> entries == old(entries)
    {
      if giveawayId !in giveaways {
        return NotFound;
      }
      var errors := EntryErrors(form, emailOk);
      if errors != [] {
        return Invalid(errors);
      }
      if giveaways[giveawayId].endDate < now {
        return Closed;
      }
      if exists id :: id in entries && entries[id].giveawayId == giveawayId && entries[id].email == form.email {
        return Duplicate;
      }
      var e := Entry(giveawayId, form.name, form.email, form.phone, now);
      var id := nextEntryId;
      ValidFormsFitColumns(form, emailOk, GiveawayData("", "", "", None, None, None), false, now);
      InsertKeepsEmailsUnique(entries, id, e);
      InsertEntryCount(entries, id, e, giveawayId);
      entries := entries[id := e];
      nextEntryId := nextEntryId + 1;
      return EntryCreated(id);
    }

    /**
     * add_giveaway behind admin_required. A chosen file with an allowed name
     * is saved under a fresh name, which the new giveaway records.
     */
    method AddGiveaway(session: Session, requestUrl: string, data: GiveawayData, now: int,
                       uuidHex: string, secureName: string) returns (out: Response)
      requires Valid()
      modifies this
      ensures Valid()
      ensures admins == old(admins) && entries == old(entries)
      ensures !session.adminLoggedIn ==> out == Unauthorized(requestUrl) && unchanged(this)
      ensures session.adminLoggedIn && !ValidGiveaway(data, IsEdit<Giveaway>(None), now) ==>
                out == Invalid(GiveawayErrors(data, IsEdit<Giveaway>(None), now)) && unchanged(this)
      ensures session.adminLoggedIn && ValidGiveaway(data, IsEdit<Giveaway>(None), now) ==>
                && out.GiveawaySaved? && out.giveawayId !in old(giveaways)
                && giveaways == old(giveaways)[out.giveawayId := Giveaway(
                     data.title, data.description, data.prize,
                     if NewImage(data.image) then Some(UploadName(uuidHex, secureName)) else None,
                     data.startDate.value, data.endDate.value, now)]
                && uploads == old(uploads) + (if NewImage(data.image) then {UploadName(uuidHex, secureName)} else {})
    {
      var gate := CheckAdmin(session.adminLoggedIn, requestUrl);
      if gate.RedirectToLogin? {
        return Unauthorized(gate.next);
      }
      var isEdit := IsEdit<Giveaway>(None);
      if !ValidGiveaway(data, isEdit, now) {
        return Invalid(GiveawayErrors(data, isEdit, now));
      }
      var image: Option<string> := None;
      if NewImage(data.image) {
        var name := UploadName(uuidHex, secureName);
        uploads := uploads + {name};
        image := Some(name);
      }
      var id := nextGiveawayId;
      ValidFormsFitColumns(EntryForm("", "", ""), false, data, isEdit, now);
      var g := Giveaway(data.title, data.description, data.prize, image,
                        data.startDate.value, data.endDate.value, now);
      PutGiveawayConsistent(admins, giveaways, entries, nextAdminId, nextGiveawayId, nextEntryId,
                            id, g, nextGiveawayId + 1);
      giveaways := giveaways[id := g];
      nextGiveawayId := nextGiveawayId + 1;
      return GiveawaySaved(id);
    }

    /**
     * edit_giveaway behind admin_required. Title, description, prize and both
     * dates are always overwritten; the image is replaced, and the old file
     * removed, only when a chosen file with an allowed name arrives.
     */
    method EditGiveaway(session: Session, requestUrl: string, giveawayId: int, data: GiveawayData, now: int,
                        uuidHex: string, secureName: string) returns (out: Response)
      requires Valid()
      modifies this
      ensures Valid()
      ensures admins == old(admins) && entries == old(entries)
      ensures !session.adminLoggedIn ==> out == Unauthorized(requestUrl) && unchanged(this)
      ensures session.adminLoggedIn && giveawayId !in old(giveaways) ==> out == NotFound && unchanged(this)
      ensures session.adminLoggedIn && giveawayId in old(giveaways) ==>
                var isEdit := IsEdit(Some(old(giveaways)[giveawayId]));
                && (!ValidGiveaway(data, isEdit, now) ==>
                      out == Invalid(GiveawayErrors(data, isEdit, now)) && unchanged(this))
                && (ValidGiveaway(data, isEdit, now) ==>
                      var g := old(giveaways)[giveawayId];
                      && out == GiveawaySaved(giveawayId)
                      && giveaways == old(giveaways)[giveawayId := g.(
                           title := data.title, description := data.description, prize := data.prize,
                           startDate := data.startDate.value, endDate := data.endDate.value,
                           image := if NewImage(data.image) then Some(UploadName(uuidHex, secureName)) else g.image)]
                      && uploads == if NewImage(data.image)
                                    then old(uploads) - ImageFiles(g) + {UploadName(uuidHex, secureName)}
                                    else old(uploads))
    {
      var gate := CheckAdmin(session.adminLoggedIn, requestUrl);
      if gate.RedirectToLogin? {
        return Unauthorized(gate.next);
      }
      if giveawayId !in giveaways {
        return NotFound;
      }
      var g := giveaways[giveawayId];
      var isEdit := IsEdit(Some(g));
      if !ValidGiveaway(data, isEdit, now) {
        return Invalid(GiveawayErrors(data, isEdit, now));
      }
      if NewImage(data.image) {
        uploads := uploads - ImageFiles(g);
        var name := UploadName(uuidHex, secureName);
        uploads := uploads + {name};
        g := g.(image := Some(name));
      }
      ValidFormsFitColumns(EntryForm("", "", ""), false, data, isEdit, now);
      g := g.(title := data.title, description := data.description, prize := data.prize,
              startDate := data.startDate.value, endDate := data.endDate.value);
      PutGiveawayConsistent(admins, giveaways, entries, nextAdminId, nextGiveawayId, nextEntryId,
                            giveawayId, g, nextGiveawayId);
      giveaways := giveaways[giveawayId := g];
      return GiveawaySaved(giveawayId);
    }

    /**
     * delete_giveaway behind admin_required: the giveaway's file, then its
     * entries, then the giveaway itself.
     */
    method DeleteGiveaway(session: Session, requestUrl: string, giveawayId: int) returns (out: Response)
      requires Valid()
      modifies this
      ensures Valid()
      ensures admins == old(admins)
      ensures !session.adminLoggedIn ==> out == Unauthorized(requestUrl) && unchanged(this)
      ensures session.adminLoggedIn && giveawayId !in old(giveaways) ==> out == NotFound && unchanged(this)
      ensures session.adminLoggedIn && giveawayId in old(giveaways) ==>
                && out == GiveawayDeleted
                && giveaways == old(giveaways) - {giveawayId}
                && entries == Cascade(old(entries), giveawayId)
                && uploads == old(uploads) - ImageFiles(old(giveaways)[giveawayId])
                && EntryCount(entries, giveawayId) == 0
                && (forall other :: other != giveawayId ==> EntryCount(entries, other) == EntryCount(old(entries), other))
    {
      var gate := CheckAdmin(session.adminLoggedIn, requestUrl);
      if gate.RedirectToLogin? {
        return Unauthorized(gate.next);
      }
      if giveawayId !in giveaways {
        return NotFound;
      }
      var g := giveaways[giveawayId];
      if HasImage(g) {
        uploads := uploads - {g.image.value};
      }
      CascadeKeepsInvariants(giveaways, entries, giveawayId);
      forall other ensures EntryCount(Cascade(entries, giveawayId), giveawayId) == 0
        && (other != giveawayId ==> EntryCount(Cascade(entries, giveawayId), other) == EntryCount(entries, other))
      {
        CascadeEntryCount(entries, giveawayId, other);
      }
      entries := Cascade(entries, giveawayId);
      giveaways := giveaways - {giveawayId};
      return GiveawayDeleted;
    }

    /** delete_entry behind admin_required: removes exactly that entry. */
    method DeleteEntry(session: Session, requestUrl: string, entryId: int) returns (out: Response)
      requires Valid()
      modifies this
      ensures Valid()
      ensures admins == old(admins) && giveaways == old(giveaways) && uploads == old(uploads)
      ensures !session.adminLoggedIn ==> out == Unauthorized(requestUrl) && unchanged(this)
      ensures session.adminLoggedIn && entryId !in old(entries) ==> out == NotFound && unchanged(this)
      ensures session.adminLoggedIn && entryId in old(entries) ==>
                && out == EntryDeleted(old(entries)[entryId].giveawayId)
                && entries == old(entries) - {entryId}
                && EntryCount(entries, out.giveawayId) == EntryCount(old(entries), out.giveawayId) - 1
    {
      var gate := CheckAdmin(session.adminLoggedIn, requestUrl);
      if gate.RedirectToLogin? {
        return Unauthorized(gate.next);
      }
      if entryId !in entries {
        return NotFound;
      }
      var giveawayId := entries[entryId].giveawayId;
      RemoveEntryCount(entries, entryId, giveawayId);
      entries := entries - {entryId};
      return EntryDeleted(giveawayId);
    }
  }

  /** The forms of the run below. */
  const SampleLogin: LoginForm := LoginForm(AdminName, "secret")
  const SampleEntry: EntryForm := EntryForm("Jane Doe", "jane@example.com", "")

  function SampleGiveaway(now: int): GiveawayData
  {
    GiveawayData("Summer raffle", "Win a brand-new bicycle", "Bicycle", None, Some(now), Some(now + 7))
  }

  lemma SampleFormsValid(now: int)
    ensures ValidLogin(SampleLogin)
    ensures ValidGiveaway(SampleGiveaway(now), false, now)
  {
    assert !IsSpace(SampleLogin.username[0]) && !IsSpace(SampleLogin.password[0]);
    var data := SampleGiveaway(now);
    assert !IsSpace(data.title[0]) && !IsSpace(data.description[0]) && !IsSpace(data.prize[0]);
  }

  lemma SampleEntryValid()
    ensures ValidEntry(SampleEntry, true)
  {
    assert !IsSpace(SampleEntry.name[0]) && !IsSpace(SampleEntry.email[0]);
  }

  /** A fresh database after the bootstrap, with the admin logged in through the login route. */
  method AdminSession(now: int) returns (store: Store, session: Session, login: Response)
    ensures fresh(store) && fresh(session)
    ensures store.Valid() && store.giveaways == map[] && store.entries == map[]
    ensures login == LoggedIn && session.adminLoggedIn
  {
    store := new Store();
    session := new Session();
    store.Bootstrap("hash", now);
    var adminId :| adminId in store.admins && store.admins[adminId].username == AdminName;
    assert store.admins[adminId].passwordHash == "hash";
    SampleFormsValid(now);
    login := store.Login(session, SampleLogin, (hash: string, password: string) => hash == "hash" && password == "secret");
  }

  /** The same, after the admin has added the sample giveaway through the add route. */
  method SampleGiveawayAdded(now: int) returns (store: Store, session: Session, login: Response, giveawayId: int)
    ensures fresh(store) && fresh(session)
    ensures store.Valid() && store.entries == map[]
    ensures giveawayId in store.giveaways && now <= store.giveaways[giveawayId].endDate
    ensures login == LoggedIn && session.adminLoggedIn
  {
    store, session, login := AdminSession(now);
    SampleFormsValid(now);
    var added := store.AddGiveaway(session, "/admin/giveaway/add", SampleGiveaway(now), now, "0f3a", "bike.png");
    giveawayId := added.giveawayId;
  }

  /** The sample entry submitted twice to an open giveaway that has none: created, then refused. */
  method EnterTwice(store: Store, giveawayId: int, now: int) returns (first: Response, second: Response)
    requires store.Valid() && store.entries == map[]
    requires giveawayId in store.giveaways && now <= store.giveaways[giveawayId].endDate
    modifies store
    ensures store.Valid() && store.giveaways == old(store.giveaways)
    ensures first.EntryCreated? && second == Duplicate
    ensures store.entries == map[first.entryId := Entry(giveawayId, SampleEntry.name, SampleEntry.email, SampleEntry.phone, now)]
    ensures EntryCount(store.entries, giveawayId) == 1
  {
    SampleEntryValid();
    assert EntryCount(store.entries, giveawayId) == 0;
    first := store.SubmitEntry(giveawayId, SampleEntry, true, now);
    assert store.entries[first.entryId].email == SampleEntry.email;
    ghost var entered := store.entries;
    second := store.SubmitEntry(giveawayId, SampleEntry, true, now);
    assert store.entries == entered;
  }

  /**
   * One run from an empty database: log in, add a giveaway, enter it twice
   * with the same email, delete it, log out and try an admin route.
   */
  method EntryLifecycle(now: int)
    returns (login: Response, first: Response, second: Response, countBefore: nat,
             deleted: Response, countAfter: nat, listedAfter: bool, pastListedAfter: bool,
             afterLogout: Response)
    ensures login == LoggedIn
    ensures first.EntryCreated? && second == Duplicate && countBefore == 1
    ensures deleted == GiveawayDeleted && countAfter == 0 && !listedAfter && !pastListedAfter
    ensures afterLogout == Unauthorized("/admin/entry/1/delete")
  {
    var store, session, giveawayId;
    store, session, login, giveawayId := SampleGiveawayAdded(now);
    first, second := EnterTwice(store, giveawayId, now);
    countBefore := EntryCount(store.entries, giveawayId);

    deleted := store.DeleteGiveaway(session, "/admin/giveaway/1/delete", giveawayId);
    countAfter := EntryCount(store.entries, giveawayId);
    listedAfter := giveawayId in Listings.ActiveGiveaways(store.giveaways, now);
    pastListedAfter := giveawayId in Listings.PastGiveaways(store.giveaways, now, None);

    session.Logout();
    afterLogout := store.DeleteEntry(session, "/admin/entry/1/delete", first.entryId);
  }
}
