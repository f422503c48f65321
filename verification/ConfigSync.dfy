/** Keeping one user's settings in agreement across memory, system parameters and the database. */
module ConfigSync {
  import opened Basics
  import opened UidText

  datatype SelectionConfig = SelectionConfig(enabled: bool, triggered: bool, app: string, uid: int32)

  /** A database row; the uid is its key. */
  datatype Row = Row(enabled: bool, triggered: bool, app: string)

  /** The four system parameters, as texts. */
  datatype Params = Params(switchText: string, triggerText: string, app: string, uidText: string)

  const LOGGED_OUT: int32 := -1
  const DEFAULT_UID: int32 := -1

  function RowOf(c: SelectionConfig): Row { Row(c.enabled, c.triggered, c.app) }

  function ConfigOf(uid: int32, row: Row): SelectionConfig {
    SelectionConfig(row.enabled, row.triggered, row.app, uid)
  }

  function ReadParams(p: Params): SelectionConfig {
    SelectionConfig(p.switchText == "on", p.triggerText == "ctrl", p.app, GetUid(p.uidText))
  }

  function WriteParams(c: SelectionConfig): Params {
    Params(if c.enabled then "on" else "off", if c.triggered then "ctrl" else "immediate", c.app, ToText(c.uid))
  }

  lemma ParamsRoundTrip(c: SelectionConfig)
    ensures ReadParams(WriteParams(c)) == c
  {
    UidRoundTrip(c.uid);
  }

  /** A bundle name, a slash and an extension name, neither of them empty. */
  predicate IsAppInfo(s: string) {
    exists k :: 0 < k < |s| - 1 && s[k] == '/' && forall j :: 0 <= j < k ==> s[j] != '/'
  }

  ghost predicate NamesApp(s: string, bundle: string, extension: string) {
    s == bundle + "/" + extension && bundle != "" && extension != "" && '/' !in bundle
  }

  lemma AppInfoMeaning(s: string)
    ensures IsAppInfo(s) <==> exists bundle, extension :: NamesApp(s, bundle, extension)
  {
    if IsAppInfo(s) {
      var k :| 0 < k < |s| - 1 && s[k] == '/' && forall j :: 0 <= j < k ==> s[j] != '/';
      assert s == s[..k] + "/" + s[k + 1..];
      assert NamesApp(s, s[..k], s[k + 1..]);
    }
    if bundle, extension :| NamesApp(s, bundle, extension) {
      var k := |bundle|;
      assert s[k] == '/' && forall j :: 0 <= j < k ==> s[j] == bundle[j];
    }
  }

  function Load(rows: map<int32, Row>, uid: int32): Option<SelectionConfig> {
    if uid in rows then Some(ConfigOf(uid, rows[uid])) else None
  }

  // ----- the comparator

  datatype SyncDirection = NONE | FromDbToSys | FromSysToDb

  datatype ComparisionResult = ComparisionResult(direction: SyncDirection, shouldCreate: bool, shouldStop: bool,
                                                 shouldStart: bool, shouldRestartApp: bool, config: SelectionConfig)

  function DoCompare(def: SelectionConfig, uid: int32, sys: SelectionConfig, db: Option<SelectionConfig>,
      connected: bool)
    : ComparisionResult
  {
    match db
    case None =>
      ComparisionResult(NONE, true, !def.enabled, false, def.enabled && sys.app == def.app, def.(uid := uid))
    case Some(row) =>
      if row.enabled then
        if sys.uid != uid then ComparisionResult(FromDbToSys, false, false, false, row.app == sys.app, row)
        else ComparisionResult(FromSysToDb, false, !sys.enabled, false, false, sys)
      else if sys.uid != uid then ComparisionResult(FromDbToSys, false, true, false, false, row)
      else ComparisionResult(FromSysToDb, false, !sys.enabled, false, false, sys)
  }

  /** What the comparator comes down to: a new user gets the default, a user whose parameters
      are in place keeps them, any other gets back the row. */
  function Agreed(def: SelectionConfig, uid: int32, sys: SelectionConfig, db: Option<SelectionConfig>): SelectionConfig
  {
    if db.None? then def.(uid := uid) else if sys.uid == uid then sys else db.value
  }

  lemma CompareMeaning(def: SelectionConfig, uid: int32, sys: SelectionConfig, db: Option<SelectionConfig>,
      connected: bool)
    ensures var r := DoCompare(def, uid, sys, db, connected);
            && r.config == Agreed(def, uid, sys, db)
            && (r.shouldStop <==> !r.config.enabled)
            && (r.shouldCreate <==> db.None?) && (r.shouldCreate <==> r.direction == NONE)
            && (r.direction == FromSysToDb <==> db.Some? && sys.uid == uid)
            && !r.shouldStart
            && (r.shouldRestartApp <==> r.config.enabled && r.config.app == sys.app && (db.None? || sys.uid != uid))
  {
  }

  // ----- the stores

  /** The three stores, the user last asked for and the user in the foreground. */
  datatype Stores = Stores(mem: SelectionConfig, params: Params, rows: map<int32, Row>, userId: int32,
                           foreground: int32)

  /** PersistSelectionConfig: memory goes to the row of the user in the foreground. */
  function Persisted(st: Stores): Stores {
    var s := st.(userId := st.foreground);
    if st.foreground == LOGGED_OUT then s else s.(rows := s.rows[st.foreground := RowOf(s.mem)])
  }

  function Stopped(p: Params, stop: bool): Params { if stop then p.(switchText := "off") else p }

  function Synced(def: SelectionConfig, st: Stores): Stores {
    var uid := st.foreground;
    if uid == LOGGED_OUT then st.(userId := uid) else
    var sys, db := ReadParams(st.params), Load(st.rows, uid);
    var c := Agreed(def, uid, sys, db);
    var keep := db.Some? && sys.uid == uid;
    Stores(c, Stopped(if keep then st.params else WriteParams(c), !c.enabled), st.rows[uid := RowOf(c)], uid, uid)
  }

  class SelectionService {
    var mem: SelectionConfig
    var params: Params
    var rows: map<int32, Row>
    var userId: int32
    var defaultConfig: SelectionConfig
    /** What the account service answers. */
    var foreground: int32

    ghost function State(): Stores
      reads this
    {
      Stores(mem, params, rows, userId, foreground)
    }

    constructor (mem: SelectionConfig, params: Params, rows: map<int32, Row>, foreground: int32)
      ensures State() == Stores(mem, params, rows, LOGGED_OUT, foreground)
    {
      this.mem, this.params, this.rows, userId := mem, params, rows, LOGGED_OUT;
      this.foreground := foreground;
      defaultConfig := SelectionConfig(false, false, "", DEFAULT_UID);
    }

    method SetSysParameters(info: SelectionConfig)
      modifies this`params
      ensures params == WriteParams(info)
    {
      params := params.(switchText := if info.enabled then "on" else "off");
      params := params.(triggerText := if info.triggered then "ctrl" else "immediate");
      params := params.(app := info.app);
      params := params.(uidText := ToText(info.uid));
    }

    method SaveDatabaseConfig(uid: int32, config: SelectionConfig)
      modifies this`rows
      ensures rows == old(rows)[uid := RowOf(config)]
    {
      rows := rows[uid := Row(config.enabled, config.triggered, config.app)];
    }

    method CheckUserLoggedIn() returns (loggedIn: bool)
      modifies this`userId
      ensures userId == foreground && loggedIn == (foreground != LOGGED_OUT)
    {
      userId := foreground;
      loggedIn := userId != -1;
    }

    /** The comparator's default is the row of no user, stored the first time it is missing. */
    method InitComparator()
      modifies this`rows, this`defaultConfig
      ensures defaultConfig == if DEFAULT_UID in old(rows) then ConfigOf(DEFAULT_UID, old(rows)[DEFAULT_UID])
                               else ReadParams(params)
      ensures rows == old(rows)[DEFAULT_UID := RowOf(defaultConfig)]
    {
      if DEFAULT_UID in rows {
        defaultConfig := ConfigOf(DEFAULT_UID, rows[DEFAULT_UID]);
      } else {
        defaultConfig := ReadParams(params);
        SaveDatabaseConfig(DEFAULT_UID, defaultConfig);
      }
    }

    method PersistSelectionConfig()
      modifies this`rows, this`userId
      ensures State() == Persisted(old(State()))
    {
      var loggedIn := CheckUserLoggedIn();
      if !loggedIn {
        return;
      }
      SaveDatabaseConfig(userId, mem);
    }

    method WatchEnableSwitch(value: string)
      modifies this`mem, this`rows, this`userId
      ensures State() == Persisted(old(State()).(mem := old(mem).(enabled := value == "on")))
    {
      mem := mem.(enabled := value == "on");
      PersistSelectionConfig();
    }

    method WatchTriggerMode(value: string)
      modifies this`mem, this`rows, this`userId
      ensures State() == Persisted(old(State()).(mem := old(mem).(triggered := value == "ctrl")))
    {
      mem := mem.(triggered := value == "ctrl");
      PersistSelectionConfig();
    }

    method WatchAppSwitch(value: string)
      modifies this`mem, this`rows, this`userId
      ensures State() == if IsAppInfo(value) then Persisted(old(State()).(mem := old(mem).(app := value)))
                         else old(State())
    {
      var valid := ParseAppInfo(value);
      if !valid {
        return;
      }
      mem := mem.(app := value);
      PersistSelectionConfig();
    }

    /** The agreed settings end up in all three stores; the result tells whether to stop. */
    method SynchronizeSelectionConfig(connected: bool) returns (result: Option<ComparisionResult>)
      modifies this`mem, this`params, this`rows, this`userId
      ensures State() == Synced(defaultConfig, old(State()))
      ensures result.None? <==> foreground == LOGGED_OUT
      ensures result.Some? ==> result.value.config == mem && (result.value.shouldStop <==> !mem.enabled)
    {
      var loggedIn := CheckUserLoggedIn();
      if !loggedIn {
        return None;
      }
      var sys, db := ReadParams(params), Load(rows, userId);
      var r := DoCompare(defaultConfig, userId, sys, db, connected);
      CompareMeaning(defaultConfig, userId, sys, db, connected);
      mem := r.config;
      if r.direction == FromDbToSys {
        SetSysParameters(r.config);
      } else if r.direction == FromSysToDb {
        SaveDatabaseConfig(userId, r.config);
      }
      if r.shouldCreate {
        SaveDatabaseConfig(userId, r.config);
        SetSysParameters(r.config);
      }
      if r.shouldStop {
        params := params.(switchText := "off");
      }
      result := Some(r);
    }

    /** One event of a run. */
    method Handle(e: Event)
      modifies this`mem, this`params, this`rows, this`userId, this`foreground
      ensures State() == Step(defaultConfig, old(State()), e)
    {
      match e {
        case Foreground(u) =>
          foreground := u;
        case Synchronise =>
          var _ := SynchronizeSelectionConfig(false);
        case SetSwitch(v) =>
          params := params.(switchText := v);
          WatchEnableSwitch(v);
        case SetTrigger(v) =>
          params := params.(triggerText := v);
          WatchTriggerMode(v);
        case SetApp(v) =>
          params := params.(app := v);
          WatchAppSwitch(v);
      }
    }
  }

  method ParseAppInfo(appInfo: string) returns (valid: bool)
    ensures valid == IsAppInfo(appInfo)
  {
    var pos := 0;
    while pos < |appInfo| && appInfo[pos] != '/'
      invariant pos <= |appInfo| && forall j :: 0 <= j < pos ==> appInfo[j] != '/'
    {
      pos := pos + 1;
    }
    if pos == |appInfo| {
      return false;
    }
    return pos > 0 && pos + 1 < |appInfo|;
  }

  // ----- one synchronisation

  /** Memory, parameters and row hold the same settings of the same user. */
  ghost predicate InAgreement(st: Stores, uid: int32) {
    && st.userId == uid && st.mem.uid == uid && ReadParams(st.params) == st.mem
    && uid in st.rows && ConfigOf(uid, st.rows[uid]) == st.mem
  }

  lemma SyncMeaning(def: SelectionConfig, st: Stores)
    requires st.foreground != LOGGED_OUT
    ensures var s, uid := Synced(def, st), st.foreground;
            && InAgreement(s, uid) && s.mem == Agreed(def, uid, ReadParams(st.params), Load(st.rows, uid))
            && (forall v :: v != uid ==> (v in s.rows <==> v in st.rows) && (v in st.rows ==> s.rows[v] == st.rows[v]))
            && Synced(def, s) == s
    ensures var s, sys := Synced(def, st), ReadParams(st.params);
            && (!s.mem.enabled ==> s.params.switchText == "off")
            && (if st.foreground in st.rows && sys.uid == st.foreground
                then s.params.(switchText := "") == st.params.(switchText := "")
                     && (s.mem.enabled ==> s.params == st.params)
                else s.params == WriteParams(s.mem))
  {
    var s := Synced(def, st);
    ParamsRoundTrip(s.mem);
    assert s.rows[st.foreground := RowOf(s.mem)] == s.rows;
  }

  // ----- runs

  /** Another user (or none) comes to the foreground, the service synchronises, or a parameter is
      set and its callback runs. */
  datatype Event = Foreground(user: int32) | Synchronise
                 | SetSwitch(value: string) | SetTrigger(value: string) | SetApp(value: string)

  function Step(def: SelectionConfig, st: Stores, e: Event): Stores {
    match e
    case Foreground(u) => st.(foreground := u)
    case Synchronise => Synced(def, st)
    case SetSwitch(v) => Persisted(st.(params := st.params.(switchText := v), mem := st.mem.(enabled := v == "on")))
    case SetTrigger(v) =>
      Persisted(st.(params := st.params.(triggerText := v), mem := st.mem.(triggered := v == "ctrl")))
    case SetApp(v) =>
      var s := st.(params := st.params.(app := v));
      if IsAppInfo(v) then Persisted(s.(mem := s.mem.(app := v))) else s
  }

  function Run(def: SelectionConfig, st: Stores, es: seq<Event>): Stores {
    if es == [] then st else Step(def, Run(def, st, es[..|es| - 1]), es[|es| - 1])
  }

  lemma RunSnoc(def: SelectionConfig, st: Stores, es: seq<Event>, e: Event)
    ensures Run(def, st, es + [e]) == Step(def, Run(def, st, es), e)
  {
    assert (es + [e])[..|es|] == es;
  }

  // ----- every run, against drafts and profiles

  /** The reference: the live settings are a draft that belongs to the user last synchronised.
      An edit changes the draft and saves it for whoever is in the foreground. The app text is
      remembered even when it names no app. */
  datatype Reference = Reference(foreground: int32, owner: int32, draft: Row, app: string, profiles: map<int32, Row>)

  function Edited(r: Reference, draft: Row): Reference {
    var saved := if r.foreground == LOGGED_OUT then r.profiles else r.profiles[r.foreground := draft];
    r.(draft := draft, profiles := saved)
  }

  function RefStep(def: SelectionConfig, r: Reference, e: Event): Reference {
    match e
    case Foreground(u) => r.(foreground := u)
    case Synchronise =>
      var u := r.foreground;
      if u == LOGGED_OUT then r
      else if u == r.owner && u in r.profiles then Edited(r, r.draft.(app := r.app))
      else
        var row := if u in r.profiles then r.profiles[u] else RowOf(def);
        Reference(u, u, row, row.app, r.profiles[u := row])
    case SetSwitch(v) => Edited(r, r.draft.(enabled := v == "on"))
    case SetTrigger(v) => Edited(r, r.draft.(triggered := v == "ctrl"))
    case SetApp(v) => if IsAppInfo(v) then Edited(r, r.draft.(app := v)).(app := v) else r.(app := v)
  }

  function RefRun(def: SelectionConfig, r: Reference, es: seq<Event>): Reference {
    if es == [] then r else RefStep(def, RefRun(def, r, es[..|es| - 1]), es[|es| - 1])
  }

  /** The stores show the reference: the rows are the profiles, memory is the owner's draft, and
      the parameters read the same but for an app text that names no app. */
  ghost predicate Shows(st: Stores, r: Reference) {
    && st.foreground == r.foreground && st.rows == r.profiles && st.mem == ConfigOf(r.owner, r.draft)
    && ReadParams(st.params) == st.mem.(app := r.app)
    && (IsAppInfo(r.app) ==> r.app == r.draft.app)
  }

  lemma StepShows(def: SelectionConfig, st: Stores, r: Reference, e: Event)
    requires Shows(st, r)
    ensures Shows(Step(def, st, e), RefStep(def, r, e))
  {
    if e.Synchronise? && st.foreground != LOGGED_OUT {
      SyncMeaning(def, st);
    }
  }

  /** Every run, whoever comes and goes and whenever anything is set. */
  lemma {:induction false} RunShowsProfiles(def: SelectionConfig, st: Stores, r: Reference, es: seq<Event>)
    requires Shows(st, r)
    ensures Shows(Run(def, st, es), RefRun(def, r, es))
  {
    if es != [] {
      var n := |es| - 1;
      RunShowsProfiles(def, st, r, es[..n]);
      StepShows(def, Run(def, st, es[..n]), RefRun(def, r, es[..n]), es[n]);
    }
  }

  /** The draft is what the owner has saved. */
  ghost predicate Settled(r: Reference) { r.owner in r.profiles && r.profiles[r.owner] == r.draft }

  /** Synchronising a logged-in user starts such a run. */
  lemma SyncStarts(def: SelectionConfig, st: Stores)
    requires st.foreground != LOGGED_OUT
    ensures var s := Synced(def, st);
            var r := Reference(st.foreground, st.foreground, RowOf(s.mem), s.mem.app, s.rows); Shows(s, r) && Settled(r)
  {
    SyncMeaning(def, st);
  }

  // ----- orderly runs: each user gets back their own last settings

  function ForegroundAfter(fg: int32, es: seq<Event>): int32 {
    if es == [] then fg else
    var e := es[|es| - 1];
    if e.Foreground? then e.user else ForegroundAfter(fg, es[..|es| - 1])
  }

  /** The user last synchronised. */
  function OwnerAfter(fg: int32, owner: int32, es: seq<Event>): int32 {
    if es == [] then owner else
    var before := es[..|es| - 1];
    var u := ForegroundAfter(fg, before);
    if es[|es| - 1].Synchronise? && u != LOGGED_OUT then u else OwnerAfter(fg, owner, before)
  }

  predicate IsEdit(e: Event) { e.SetSwitch? || e.SetTrigger? || e.SetApp? }

  predicate InOrder(fg: int32, owner: int32, e: Event) { IsEdit(e) ==> fg == owner && fg != LOGGED_OUT }

  /** Settings are edited only while the user in the foreground is the one last synchronised. */
  ghost predicate Orderly(fg: int32, owner: int32, es: seq<Event>) {
    forall k :: 0 <= k < |es| ==> InOrder(ForegroundAfter(fg, es[..k]), OwnerAfter(fg, owner, es[..k]), es[k])
  }

  /** One user's settings, if there are any, and the app text while the user owns the live ones. */
  datatype Own = Own(row: Option<Row>, live: string)

  /** How one user's settings move with what happens while that user is in the foreground. */
  function OwnStep(def: SelectionConfig, o: Own, owner: bool, e: Event): Own {
    match o.row
    case None => if e.Synchronise? then Own(Some(RowOf(def)), def.app) else o
    case Some(row) =>
      match e
      case Foreground(_) => o
      case Synchronise => if owner then o.(row := Some(row.(app := o.live))) else o.(live := row.app)
      case SetSwitch(v) => o.(row := Some(row.(enabled := v == "on")))
      case SetTrigger(v) => o.(row := Some(row.(triggered := v == "ctrl")))
      case SetApp(v) => if IsAppInfo(v) then Own(Some(row.(app := v)), v) else o.(live := v)
  }

  /** Nothing that happens while others are in the foreground counts. */
  function OwnRun(def: SelectionConfig, o: Own, u: int32, fg: int32, owner: int32, es: seq<Event>): Own {
    if es == [] then o else
    var before := es[..|es| - 1];
    var was := OwnRun(def, o, u, fg, owner, before);
    if ForegroundAfter(fg, before) != u then was
    else OwnStep(def, was, OwnerAfter(fg, owner, before) == u, es[|es| - 1])
  }

  ghost predicate HasOwn(r: Reference, o: Own, u: int32) {
    && o.row == (if u in r.profiles then Some(r.profiles[u]) else None)
    && (r.owner == u ==> o.live == r.app)
  }

  lemma {:induction false} RefTracks(def: SelectionConfig, r: Reference, es: seq<Event>)
    ensures var s := RefRun(def, r, es);
            s.foreground == ForegroundAfter(r.foreground, es) && s.owner == OwnerAfter(r.foreground, r.owner, es)
  {
    if es != [] {
      RefTracks(def, r, es[..|es| - 1]);
    }
  }

  lemma OwnStepHolds(def: SelectionConfig, r: Reference, o: Own, u: int32, e: Event)
    requires Settled(r) && HasOwn(r, o, u) && u != LOGGED_OUT && InOrder(r.foreground, r.owner, e)
    ensures Settled(RefStep(def, r, e))
    ensures HasOwn(RefStep(def, r, e), if r.foreground != u then o else OwnStep(def, o, r.owner == u, e), u)
  {
  }

  /** In an orderly run every user's row is made of that user's own edits and nobody else's. */
  lemma {:induction false} OrderlyRunKeepsOwn(def: SelectionConfig, st: Stores, r: Reference, es: seq<Event>,
      o: Own, u: int32)
    requires Shows(st, r) && Settled(r) && HasOwn(r, o, u) && u != LOGGED_OUT
    requires Orderly(r.foreground, r.owner, es)
    ensures var s, own := Run(def, st, es), OwnRun(def, o, u, r.foreground, r.owner, es);
            own.row == (if u in s.rows then Some(s.rows[u]) else None)
    ensures Settled(RefRun(def, r, es)) && HasOwn(RefRun(def, r, es), OwnRun(def, o, u, r.foreground, r.owner, es), u)
  {
    RunShowsProfiles(def, st, r, es);
    if es != [] {
      var n := |es| - 1;
      var before := es[..n];
      assert Orderly(r.foreground, r.owner, before) by {
        assert forall k :: 0 <= k < n ==> before[..k] == es[..k];
      }
      OrderlyRunKeepsOwn(def, st, r, before, o, u);
      RefTracks(def, r, before);
      OwnStepHolds(def, RefRun(def, r, before), OwnRun(def, o, u, r.foreground, r.owner, before), u, es[n]);
    }
  }

  // ----- any run: what a returning user finds

  ghost predicate NeverForeground(es: seq<Event>, uid: int32) { forall e :: e in es && e.Foreground? ==> e.user != uid }

  /** While a user is not in the foreground, that user's row does not change. */
  lemma {:induction false} RowIsLeftAlone(def: SelectionConfig, st: Stores, es: seq<Event>, uid: int32)
    requires st.foreground != uid && uid in st.rows && NeverForeground(es, uid)
    ensures var s := Run(def, st, es); s.foreground != uid && uid in s.rows && s.rows[uid] == st.rows[uid]
  {
    if es != [] {
      var n := |es| - 1;
      RowIsLeftAlone(def, st, es[..n], uid);
      assert es[n] in es;
    }
  }

  predicate SomeoneSynchronised(fg: int32, es: seq<Event>) {
    es != [] && (SomeoneSynchronised(fg, es[..|es| - 1])
                 || (es[|es| - 1].Synchronise? && ForegroundAfter(fg, es[..|es| - 1]) != LOGGED_OUT))
  }

  /** The parameter texts after what was set in es. */
  function LastSet(p: Params, es: seq<Event>): Params {
    if es == [] then p else
    var q := LastSet(p, es[..|es| - 1]);
    match es[|es| - 1]
    case SetSwitch(v) => q.(switchText := v)
    case SetTrigger(v) => q.(triggerText := v)
    case SetApp(v) => q.(app := v)
    case _ => q
  }

  /** Synchronising anyone else takes the live settings away from the user. */
  lemma {:induction false} WhoseParams(def: SelectionConfig, st: Stores, es: seq<Event>, uid: int32)
    requires st.foreground != uid && NeverForeground(es, uid)
    ensures var s := Run(def, st, es);
            && s.foreground == ForegroundAfter(st.foreground, es) != uid
            && (if SomeoneSynchronised(st.foreground, es) then ReadParams(s.params).uid != uid
                else s.params == LastSet(st.params, es))
  {
    if es != [] {
      var n := |es| - 1;
      WhoseParams(def, st, es[..n], uid);
      assert es[n] in es;
      if es[n].Synchronise? && Run(def, st, es[..n]).foreground != LOGGED_OUT {
        SyncMeaning(def, Run(def, st, es[..n]));
      }
    }
  }

  lemma LastSetKeepsUid(p: Params, es: seq<Event>)
    ensures LastSet(p, es).uidText == p.uidText
  {
  }

  function Returned(def: SelectionConfig, st: Stores, es: seq<Event>, uid: int32): Stores {
    Run(def, st, es + [Foreground(uid)] + [Synchronise])
  }

  lemma ReturnedValue(def: SelectionConfig, st: Stores, es: seq<Event>, uid: int32)
    ensures Returned(def, st, es, uid) == Synced(def, Run(def, st, es).(foreground := uid))
  {
    RunSnoc(def, st, es, Foreground(uid));
    RunSnoc(def, st, es + [Foreground(uid)], Synchronise);
  }

  /** A returning user finds the settings last saved exactly when the live settings were another
      user's, or someone else was synchronised meanwhile, or the parameters still read the same.
      Otherwise what was set with nobody logged in is taken for this user's. */
  lemma ReturningUserKeepsRow(def: SelectionConfig, st: Stores, es: seq<Event>, uid: int32)
    requires uid != LOGGED_OUT && uid in st.rows && st.foreground != uid && NeverForeground(es, uid)
    ensures var s := Returned(def, st, es, uid);
            && InAgreement(s, uid)
            && (s.rows[uid] == st.rows[uid] <==>
                  || ReadParams(st.params).uid != uid || SomeoneSynchronised(st.foreground, es)
                  || RowOf(ReadParams(LastSet(st.params, es))) == st.rows[uid])
  {
    var before := Run(def, st, es);
    RowIsLeftAlone(def, st, es, uid);
    WhoseParams(def, st, es, uid);
    LastSetKeepsUid(st.params, es);
    ReturnedValue(def, st, es, uid);
    SyncMeaning(def, before.(foreground := uid));
    if ReadParams(st.params).uid != uid {
      ParamsStayForeign(def, st, es, uid);
    }
  }

  lemma ParamsStayForeign(def: SelectionConfig, st: Stores, es: seq<Event>, uid: int32)
    requires st.foreground != uid && NeverForeground(es, uid) && ReadParams(st.params).uid != uid
    ensures ReadParams(Run(def, st, es).params).uid != uid
  {
    WhoseParams(def, st, es, uid);
    LastSetKeepsUid(st.params, es);
  }

  /** Once another user owns the live settings, whatever happens, switching back restores the row. */
  lemma SwitchBackRestores(def: SelectionConfig, st: Stores, es: seq<Event>, uid: int32)
    requires uid != LOGGED_OUT && uid in st.rows && st.foreground != uid && NeverForeground(es, uid)
    requires ReadParams(st.params).uid != uid
    ensures var s := Returned(def, st, es, uid); s.mem == ConfigOf(uid, st.rows[uid]) && InAgreement(s, uid)
  {
    ReturningUserKeepsRow(def, st, es, uid);
  }

  /** It fails for an edit between a logout and the next login of the same user. */
  lemma LoggedOutEditSticks(def: SelectionConfig, st: Stores, uid: int32)
    requires uid != LOGGED_OUT && InAgreement(st, uid) && st.mem.triggered && st.foreground == LOGGED_OUT
    ensures var s := Returned(def, st, [Synchronise] + [SetTrigger("immediate")], uid);
            uid in s.rows && s.rows[uid] == st.rows[uid].(triggered := false) && s.rows[uid] != st.rows[uid]
  {
    var one := Step(def, st, Synchronise);
    var two := Step(def, one, SetTrigger("immediate"));
    RunSnoc(def, st, [], Synchronise);
    assert [] + [Synchronise] == [Synchronise];
    RunSnoc(def, st, [Synchronise], SetTrigger("immediate"));
    ReturnedValue(def, st, [Synchronise] + [SetTrigger("immediate")], uid);
    SyncMeaning(def, two.(foreground := uid));
    LoggedOutEdit(st, one, two);
  }

  lemma LoggedOutEdit(st: Stores, one: Stores, two: Stores)
    requires st.foreground == LOGGED_OUT && ReadParams(st.params) == st.mem
    requires one == st.(userId := LOGGED_OUT)
    requires two ==
               Persisted(one.(params := one.params.(triggerText := "immediate"), mem := one.mem.(triggered := false)))
    ensures two.rows == st.rows && ReadParams(two.params) == st.mem.(triggered := false)
  {
  }

  // ----- callbacks out of order

  /** What an edit does to the row of the user who makes it. */
  function EditRow(row: Row, e: Event): Row {
    match e
    case SetSwitch(v) => row.(enabled := v == "on")
    case SetTrigger(v) => row.(triggered := v == "ctrl")
    case SetApp(v) => if IsAppInfo(v) then row.(app := v) else row
    case _ => row
  }

  /** The settings that an edit leaves alone are the same. */
  predicate SameBeside(a: Row, b: Row, e: Event) {
    (e.SetSwitch? || a.enabled == b.enabled) && (e.SetTrigger? || a.triggered == b.triggered)
    && (e.SetApp? || a.app == b.app)
  }

  /** A newcomer's edit before the synchronisation saves the draft of the user before, so the row
      gets that edit alone exactly when the two agree on everything else. */
  lemma CallbackBeforeSync(def: SelectionConfig, st: Stores, r: Reference, newcomer: int32, e: Event)
    requires Shows(st, r) && newcomer != LOGGED_OUT && newcomer in st.rows
    requires IsEdit(e) && (e.SetApp? ==> IsAppInfo(e.value))
    ensures var s := Run(def, st, [Foreground(newcomer)] + [e]);
            && newcomer in s.rows && s.rows[newcomer] == EditRow(r.draft, e)
            && (s.rows[newcomer] == EditRow(st.rows[newcomer], e) <==> SameBeside(r.draft, st.rows[newcomer], e))
  {
    RunSnoc(def, st, [Foreground(newcomer)], e);
    RunSnoc(def, st, [], Foreground(newcomer));
    assert [] + [Foreground(newcomer)] == [Foreground(newcomer)];
  }

  /** Writing the parameters triggers their callbacks again. Such an echo changes nothing exactly
      when the foreground user's row, if there is one to write, already holds what memory does. */
  lemma EchoIsHarmless(def: SelectionConfig, st: Stores, r: Reference)
    requires Shows(st, r)
    ensures var quiet := st.userId == st.foreground &&
              (st.foreground == LOGGED_OUT || (st.foreground in st.rows && st.rows[st.foreground] == RowOf(st.mem)));
            && (Step(def, st, SetSwitch(st.params.switchText)) == st <==> quiet)
            && (Step(def, st, SetTrigger(st.params.triggerText)) == st <==> quiet)
            && (Step(def, st, SetApp(st.params.app)) == st <==> quiet || !IsAppInfo(st.params.app))
  {
    assert st.mem.(enabled := st.params.switchText == "on") == st.mem;
    assert st.mem.(triggered := st.params.triggerText == "ctrl") == st.mem;
    EchoQuiet(st);
  }

  lemma EchoQuiet(st: Stores)
    ensures Persisted(st) == st <==>
              && st.userId == st.foreground
              && (st.foreground == LOGGED_OUT || (st.foreground in st.rows && st.rows[st.foreground] == RowOf(st.mem)))
  {
    var f := st.foreground;
    if f in st.rows && st.rows[f] == RowOf(st.mem) {
      assert st.rows[f := RowOf(st.mem)] == st.rows;
    }
    if Persisted(st) == st && f != LOGGED_OUT {
      assert f in Persisted(st).rows;
    }
  }

  /** As long as nobody is logged in, no row changes. */
  lemma {:induction false} LoggedOutSavesNothing(def: SelectionConfig, st: Stores, es: seq<Event>)
    requires st.foreground == LOGGED_OUT && forall e :: e in es && e.Foreground? ==> e.user == LOGGED_OUT
    ensures Run(def, st, es).rows == st.rows && Run(def, st, es).foreground == LOGGED_OUT
  {
    if es != [] {
      LoggedOutSavesNothing(def, st, es[..|es| - 1]);
      assert es[|es| - 1] in es;
    }
  }

  /** So the row that holds the default never changes once it is there. */
  lemma {:induction false} DefaultIsFrozen(def: SelectionConfig, st: Stores, es: seq<Event>)
    requires DEFAULT_UID in st.rows
    ensures var s := Run(def, st, es); DEFAULT_UID in s.rows && s.rows[DEFAULT_UID] == st.rows[DEFAULT_UID]
  {
    if es != [] {
      DefaultIsFrozen(def, st, es[..|es| - 1]);
    }
  }
}
