/**
 * The per-user conversation of main.py: `handle_message` (text messages)
 * and `handle_callback` (button presses), over the store and the
 * process-wide session map `temp_user_data`.
 *
 * `OnMessage` and `OnCallback` give, for one event, the new tables, the new
 * session map and an abstract reply; class `Bot` performs the same steps on
 * the store object and is proved to end in exactly that state. The lemmas
 * below state what each kind of event changes and what it leaves alone.
 *
 * Status values: 0 idle, 1 waiting for a new place's name, 2 waiting for its
 * type, 101 waiting for a new name of place `edit_dot_id`, 102 waiting for a
 * new type of it.
 */
module Conversation {
  import opened Wrappers
  import opened Store
  import opened Buttons
  import PyInt

  /** One user's entry in `temp_user_data`: the keys `name_dot` and `edit_dot_id`, each possibly absent. */
  datatype Session = Session(nameDot: Option<string>, editDotId: Option<int>)

  /** What the bot answers; the text and keyboards of the answers are not modelled. */
  datatype Reply =
    | MainMenu
    | AdminMenu
    | LostSession
    | NameSaved(nextId: int)
    | Added(idDot: int)
    | Failed
    | NameChanged(nameDot: string)
    | TypeChanged(typeDot: string)
    | EnterName
    | ChoosePlace(keyboards: seq<PlaceButtons>)
    | NoPlaces
    | EnterNewName
    | EnterNewType
    | PlaceDeleted
    | PlaceList(rows: seq<Place>)
    | InDevelopment
    | UnknownCommand
    /** `int(...)` raised on a button suffix; the exception leaves the handler. */
    | BadPayload
    /** `sqlite3` could not bind a place id outside the INTEGER range; the `OverflowError` leaves the handler. */
    | Overflow

  datatype State = State(users: map<int, User>, places: seq<Place>, sessions: map<int, Session>)

  datatype Step = Step(state: State, reply: Reply)

  /** The users table after the registration that opens both handlers. */
  function Register(users: map<int, User>, initial: User, userId: int): (r: map<int, User>)
    ensures UserExist(r, userId)
    ensures r.Keys == users.Keys + {userId}
    ensures forall k :: k in users ==> r[k] == users[k]
    ensures !UserExist(users, userId) ==> r[userId] == initial
  {
    if UserExist(users, userId) then users else users[userId := initial]
  }

  /**
   * `handle_message` for a text `text` from `userId`; `accepted` is the database's verdict on an
   * INSERT whose values bind.
   */
  function OnMessage(s: State, initial: User, userId: int, text: string, accepted: bool): Step {
    var users := Register(s.users, initial, userId);
    var status := GetStatus(users, userId);
    var isAdmin := GetIsAdmin(users, userId);
    var registered := s.(users := users);
    if isAdmin != Some(true) then
      Step(registered, MainMenu)
    else if status == Some(1) then
      Step(State(WithStatus(users, userId, 2), s.places, s.sessions[userId := Session(Some(text), None)]),
           NameSaved(NextAvailableId(s.places)))
    else if status == Some(2) then
      if userId !in s.sessions then
        Step(registered, LostSession)
      else if !accepted || !InsertBinds(s.places, text) then
        Step(registered, Failed)
      else
        var id := NextAvailableId(s.places);
        var nameDot := s.sessions[userId].nameDot.GetOr("");
        Step(State(WithStatus(users, userId, 0), s.places + [Place(id, nameDot, TypeValueOf(text))], s.sessions - {userId}),
             Added(id))
    else if status == Some(101) && userId in s.sessions && s.sessions[userId].editDotId.Some? then
      var n := s.sessions[userId].editDotId.value;
      if !FitsInteger(n) then Step(registered, Overflow)
      else Step(State(WithStatus(users, userId, 0), Renamed(s.places, n, text), s.sessions - {userId}), NameChanged(text))
    else if status == Some(102) && userId in s.sessions && s.sessions[userId].editDotId.Some? then
      var n := s.sessions[userId].editDotId.value;
      if !FitsInteger(n) then Step(registered, Overflow)
      else Step(State(WithStatus(users, userId, 0), Retyped(s.places, n, Text(text)), s.sessions - {userId}), TypeChanged(text))
    else
      Step(registered, AdminMenu)
  }

  /** `handle_callback` for the payload `data` pressed by `userId`. */
  function OnCallback(s: State, initial: User, userId: int, data: string): Step {
    OnButton(s, initial, userId, ParseButton(data))
  }

  /** `handle_callback` once the payload has been classified as `button`. */
  function OnButton(s: State, initial: User, userId: int, button: Button): Step {
    var users := Register(s.users, initial, userId);
    var registered := s.(users := users);
    match button
    case AddDot =>
      Step(State(WithStatus(users, userId, 1), s.places, s.sessions - {userId}), EnterName)
    case ControlDots =>
      if s.places == [] then Step(registered, NoPlaces) else Step(registered, ChoosePlace(Keyboards(s.places)))
    case EditName(id) =>
      if id.None? then Step(registered, BadPayload)
      else Step(State(WithStatus(users, userId, 101), s.places, s.sessions[userId := Session(None, id)]), EnterNewName)
    case EditType(id) =>
      if id.None? then Step(registered, BadPayload)
      else Step(State(WithStatus(users, userId, 102), s.places, s.sessions[userId := Session(None, id)]), EnterNewType)
    case Delete(id) =>
      if id.None? then Step(registered, BadPayload)
      else if !FitsInteger(id.value) then Step(registered, Overflow)
      else Step(registered.(places := Deleted(s.places, id.value)), PlaceDeleted)
    case DotsInKrasnoyarsk =>
      if s.places == [] then Step(registered, NoPlaces) else Step(registered, PlaceList(s.places))
    case MyDots => Step(registered, InDevelopment)
    case FavouriteDots => Step(registered, InDevelopment)
    case Unknown => Step(registered, UnknownCommand)
  }

  /** The sender as the handlers see them right after registration. */
  function Sender(s: State, initial: User, userId: int): User {
    Register(s.users, initial, userId)[userId]
  }

  /** After the handler sets the sender's status, the next event sees that status and the same admin flag. */
  lemma SenderAfterStatus(s: State, t: State, initial: User, userId: int, status: int)
    requires t.users == WithStatus(Register(s.users, initial, userId), userId, status)
    ensures Sender(t, initial, userId) == Sender(s, initial, userId).(status := status)
  {
  }

  /** Nothing but the users table changed, and it changed only in the sender's row. */
  ghost predicate OnlySenderRow(s: State, t: State, userId: int) {
    && t.places == s.places
    && t.sessions == s.sessions
    && t.users.Keys == s.users.Keys + {userId}
    && forall k :: k in s.users && k != userId ==> t.users[k] == s.users[k]
  }

  /** Other users' rows and sessions are never touched, and the sender's admin flag never changes. */
  ghost predicate SenderOnly(s: State, t: State, initial: User, userId: int) {
    && UserExist(t.users, userId)
    && t.users.Keys == s.users.Keys + {userId}
    && t.users[userId].isAdmin == Sender(s, initial, userId).isAdmin
    && (forall k :: k in s.users && k != userId ==> t.users[k] == s.users[k])
    && (forall k :: k != userId ==> (k in t.sessions <==> k in s.sessions))
    && (forall k :: k != userId && k in s.sessions ==> t.sessions[k] == s.sessions[k])
  }

  // ------------------------------------------------------ text messages

  /** Registration: the sender exists afterwards; an unknown sender is inserted with the default row, a known one keeps theirs. */
  lemma MessageRegistersSender(s: State, initial: User, userId: int, text: string, accepted: bool)
    ensures SenderOnly(s, OnMessage(s, initial, userId, text, accepted).state, initial, userId)
    ensures !UserExist(s.users, userId) ==> Sender(s, initial, userId) == initial
    ensures UserExist(s.users, userId) ==> Sender(s, initial, userId) == s.users[userId]
  {
  }

  /** A non-admin's text changes no status, session or place, whatever their status, and gets the main menu. */
  lemma NonAdminMessage(s: State, initial: User, userId: int, text: string, accepted: bool)
    requires !Sender(s, initial, userId).isAdmin
    ensures var t := OnMessage(s, initial, userId, text, accepted);
      t.reply == MainMenu && OnlySenderRow(s, t.state, userId) && t.state.users[userId] == Sender(s, initial, userId)
  {
  }

  /** Status 1: the text becomes the session's only key `name_dot`, the status becomes 2, the places stay. */
  lemma NameStepMessage(s: State, initial: User, userId: int, text: string, accepted: bool)
    requires Sender(s, initial, userId).isAdmin && Sender(s, initial, userId).status == 1
    ensures var t := OnMessage(s, initial, userId, text, accepted);
      && t.reply == NameSaved(NextAvailableId(s.places))
      && t.state.sessions == s.sessions[userId := Session(Some(text), None)]
      && GetStatus(t.state.users, userId) == Some(2)
      && t.state.places == s.places
  {
  }

  /** Status 2 without a session: the reply says the session is lost, and the status stays 2. */
  lemma LostSessionMessage(s: State, initial: User, userId: int, text: string, accepted: bool)
    requires Sender(s, initial, userId).isAdmin && Sender(s, initial, userId).status == 2
    requires userId !in s.sessions
    ensures var t := OnMessage(s, initial, userId, text, accepted);
      t.reply == LostSession && OnlySenderRow(s, t.state, userId) && GetStatus(t.state.users, userId) == Some(2)
  {
  }

  /**
   * Status 2 with a session: exactly one place is appended, with the next id, the session's name (or "")
   * and the text read as a type; the status becomes 0 and only the sender's session is dropped.
   */
  lemma AddStepMessage(s: State, initial: User, userId: int, text: string)
    requires Sender(s, initial, userId).isAdmin && Sender(s, initial, userId).status == 2
    requires userId in s.sessions && InsertBinds(s.places, text)
    ensures var t := OnMessage(s, initial, userId, text, true);
      var id := NextAvailableId(s.places);
      && t.reply == Added(id)
      && t.state.places == s.places + [Place(id, s.sessions[userId].nameDot.GetOr(""), TypeValueOf(text))]
      && (forall i :: 0 <= i < |s.places| ==> s.places[i].idDot < id)
      && GetDots(t.state.places, Some(id)) == [t.state.places[|s.places|]]
      && GetStatus(t.state.users, userId) == Some(0)
      && t.state.sessions == s.sessions - {userId}
  {
    var t := OnMessage(s, initial, userId, text, true);
    NextAvailableIdAboveAll(s.places);
    NewRowIsOnlyOneWithId(s.places, t.state.places[|s.places|]);
  }

  /**
   * Status 2 when the INSERT raises, because the database refuses it or because the next id or the
   * number read from the text is outside the INTEGER range: the error is answered, and status,
   * session and places stay as they were.
   */
  lemma AddStepRefused(s: State, initial: User, userId: int, text: string, accepted: bool)
    requires Sender(s, initial, userId).isAdmin && Sender(s, initial, userId).status == 2
    requires !accepted || !InsertBinds(s.places, text)
    ensures var t := OnMessage(s, initial, userId, text, accepted);
      && (userId in s.sessions ==> t.reply == Failed)
      && (userId !in s.sessions ==> t.reply == LostSession)
      && OnlySenderRow(s, t.state, userId)
      && GetStatus(t.state.users, userId) == Some(2)
  {
  }

  /** A number outside the INTEGER range, such as `99999999999999999999`, makes the INSERT raise, so no place is added. */
  lemma HugeTypeRefused(s: State, initial: User, userId: int, n: int)
    requires Sender(s, initial, userId).isAdmin && Sender(s, initial, userId).status == 2
    requires userId in s.sessions && !FitsInteger(n)
    ensures var t := OnMessage(s, initial, userId, PyInt.ShowInt(n), true);
      t.reply == Failed && t.state.places == s.places
  {
    TypeValueOfNumber(n);
  }

  /** Status 101 with a target N: only the names of the rows with id N change; status 0; the session is dropped. */
  lemma EditNameMessage(s: State, initial: User, userId: int, text: string, accepted: bool)
    requires Sender(s, initial, userId).isAdmin && Sender(s, initial, userId).status == 101
    requires userId in s.sessions && s.sessions[userId].editDotId.Some?
    requires FitsInteger(s.sessions[userId].editDotId.value)
    ensures var t := OnMessage(s, initial, userId, text, accepted);
      var n := s.sessions[userId].editDotId.value;
      && t.reply == NameChanged(text)
      && t.state.places == Renamed(s.places, n, text)
      && GetStatus(t.state.users, userId) == Some(0)
      && t.state.sessions == s.sessions - {userId}
  {
  }

  /** Status 102 with a target N: the rows with id N get the raw text as type, not parsed; status 0; the session is dropped. */
  lemma EditTypeMessage(s: State, initial: User, userId: int, text: string, accepted: bool)
    requires Sender(s, initial, userId).isAdmin && Sender(s, initial, userId).status == 102
    requires userId in s.sessions && s.sessions[userId].editDotId.Some?
    requires FitsInteger(s.sessions[userId].editDotId.value)
    ensures var t := OnMessage(s, initial, userId, text, accepted);
      var n := s.sessions[userId].editDotId.value;
      && t.reply == TypeChanged(text)
      && t.state.places == Retyped(s.places, n, Text(text))
      && GetStatus(t.state.users, userId) == Some(0)
      && t.state.sessions == s.sessions - {userId}
  {
  }

  /** Status 101 or 102 with a target outside the INTEGER range: the UPDATE raises, and status, session and places stay. */
  lemma EditOverflowMessage(s: State, initial: User, userId: int, text: string, accepted: bool)
    requires Sender(s, initial, userId).isAdmin && Sender(s, initial, userId).status in {101, 102}
    requires userId in s.sessions && s.sessions[userId].editDotId.Some?
    requires !FitsInteger(s.sessions[userId].editDotId.value)
    ensures var t := OnMessage(s, initial, userId, text, accepted);
      t.reply == Overflow && OnlySenderRow(s, t.state, userId) && t.state.users[userId] == Sender(s, initial, userId)
  {
  }

  /** Status 101 or 102 without a target, and every other status of an admin: the admin menu, and nothing changes. */
  lemma AdminMenuMessage(s: State, initial: User, userId: int, text: string, accepted: bool)
    requires Sender(s, initial, userId).isAdmin
    requires Sender(s, initial, userId).status != 1 && Sender(s, initial, userId).status != 2
    requires Sender(s, initial, userId).status in {101, 102} ==> userId !in s.sessions || s.sessions[userId].editDotId.None?
    ensures var t := OnMessage(s, initial, userId, text, accepted);
      t.reply == AdminMenu && OnlySenderRow(s, t.state, userId) && t.state.users[userId] == Sender(s, initial, userId)
  {
  }

  // ------------------------------------------------------ button presses

  /** Registration on a button press, and no other user is ever affected. */
  lemma CallbackRegistersSender(s: State, initial: User, userId: int, button: Button)
    ensures SenderOnly(s, OnButton(s, initial, userId, button).state, initial, userId)
  {
  }

  /** `add_dot`, pressed by anyone: status 1 and the sender's session dropped. */
  lemma AddDotButton(s: State, initial: User, userId: int)
    ensures var t := OnButton(s, initial, userId, AddDot);
      && t.reply == EnterName
      && GetStatus(t.state.users, userId) == Some(1)
      && t.state.sessions == s.sessions - {userId}
      && t.state.places == s.places
  {
  }

  /** `edit_name_N` / `edit_type_N`, pressed by anyone: status 101 / 102 and the session exactly `{edit_dot_id: N}`. */
  lemma EditButtons(s: State, initial: User, userId: int, button: Button, n: int)
    requires button == EditName(Some(n)) || button == EditType(Some(n))
    ensures var t := OnButton(s, initial, userId, button);
      && GetStatus(t.state.users, userId) == Some(if button.EditName? then 101 else 102)
      && t.state.sessions == s.sessions[userId := Session(None, Some(n))]
      && t.state.places == s.places
  {
  }

  /** A suffix `int` cannot read stops the press after registration: nothing else changes. */
  lemma BadPayloadButton(s: State, initial: User, userId: int, button: Button)
    requires button in {EditName(None), EditType(None), Delete(None)}
    ensures var t := OnButton(s, initial, userId, button);
      t.reply == BadPayload && OnlySenderRow(s, t.state, userId) && t.state.users[userId] == Sender(s, initial, userId)
  {
  }

  /** `delete_N`: exactly the rows with id N disappear; statuses and sessions stay. */
  lemma DeleteButton(s: State, initial: User, userId: int, n: int)
    requires FitsInteger(n)
    ensures var t := OnButton(s, initial, userId, Delete(Some(n)));
      && t.reply == PlaceDeleted
      && t.state.places == Deleted(s.places, n)
      && GetDots(t.state.places, Some(n)) == []
      && (forall p :: p in s.places && p.idDot != n ==> p in t.state.places)
      && t.state.sessions == s.sessions
      && t.state.users == Register(s.users, initial, userId)
  {
    DeletedRemovesExactly(s.places, n);
  }

  /** `delete_N` with N outside the INTEGER range: the DELETE raises and nothing but the registration changes. */
  lemma DeleteOverflowButton(s: State, initial: User, userId: int, n: int)
    requires !FitsInteger(n)
    ensures var t := OnButton(s, initial, userId, Delete(Some(n)));
      t.reply == Overflow && OnlySenderRow(s, t.state, userId) && t.state.users[userId] == Sender(s, initial, userId)
  {
  }

  /** The listing buttons and unknown payloads change nothing but the registration. */
  lemma ReadOnlyButtons(s: State, initial: User, userId: int, button: Button)
    requires button in {ControlDots, DotsInKrasnoyarsk, MyDots, FavouriteDots, Unknown}
    ensures var t := OnButton(s, initial, userId, button);
      OnlySenderRow(s, t.state, userId) && t.state.users[userId] == Sender(s, initial, userId)
  {
  }

  /** `control_dots` offers, for every place in the order listed, buttons that act on that place. */
  lemma ControlDotsButtons(s: State, initial: User, userId: int)
    requires s.places != []
    ensures var t := OnButton(s, initial, userId, ControlDots);
      && t.reply.ChoosePlace?
      && |t.reply.keyboards| == |s.places|
      && forall i :: 0 <= i < |s.places| ==>
        && ParseButton(t.reply.keyboards[i].editName) == EditName(Some(s.places[i].idDot))
        && ParseButton(t.reply.keyboards[i].editType) == EditType(Some(s.places[i].idDot))
        && ParseButton(t.reply.keyboards[i].delete) == Delete(Some(s.places[i].idDot))
  {
    forall i | 0 <= i < |s.places|
      ensures ParseButton(Keyboards(s.places)[i].editName) == EditName(Some(s.places[i].idDot))
      ensures ParseButton(Keyboards(s.places)[i].editType) == EditType(Some(s.places[i].idDot))
      ensures ParseButton(Keyboards(s.places)[i].delete) == Delete(Some(s.places[i].idDot))
    {
      ParseButtonsFor(s.places[i].idDot);
    }
  }

  // ------------------------------------------------------- place table

  /** A text message keeps the place ids distinct and every stored integer in range. */
  lemma MessageKeepsTableInvariant(s: State, initial: User, userId: int, text: string, accepted: bool)
    requires TableInvariant(s.places)
    ensures TableInvariant(OnMessage(s, initial, userId, text, accepted).state.places)
  {
    if userId in s.sessions {
      if InsertBinds(s.places, text) {
        AddKeepsInvariant(s.places, s.sessions[userId].nameDot.GetOr(""), text);
      }
      if s.sessions[userId].editDotId.Some? {
        var n := s.sessions[userId].editDotId.value;
        RenameKeepsInvariant(s.places, n, text);
        RetypeKeepsInvariant(s.places, n, Text(text));
      }
    }
  }

  /** A button press keeps the place ids distinct and every stored integer in range. */
  lemma ButtonKeepsTableInvariant(s: State, initial: User, userId: int, button: Button)
    requires TableInvariant(s.places)
    ensures TableInvariant(OnButton(s, initial, userId, button).state.places)
  {
    if button.Delete? && button.id.Some? {
      DeleteKeepsInvariant(s.places, button.id.value);
    }
  }

  // ------------------------------------------------------------ workflows

  /** Pressing `add_dot`, sending a name and then a type adds exactly that place, with the next id, and ends idle. */
  lemma AddWorkflow(s: State, initial: User, userId: int, nameDot: string, typeDot: string)
    requires Sender(s, initial, userId).isAdmin && InsertBinds(s.places, typeDot)
    ensures var s1 := OnCallback(s, initial, userId, "add_dot").state;
      var s2 := OnMessage(s1, initial, userId, nameDot, true).state;
      var t := OnMessage(s2, initial, userId, typeDot, true);
      && t.reply == Added(NextAvailableId(s.places))
      && t.state.places == s.places + [Place(NextAvailableId(s.places), nameDot, TypeValueOf(typeDot))]
      && GetStatus(t.state.users, userId) == Some(0)
      && t.state.sessions == s.sessions - {userId}
  {
    assert ParseButton("add_dot") == AddDot;
    var s1 := OnButton(s, initial, userId, AddDot).state;
    AddDotButton(s, initial, userId);
    SenderAfterStatus(s, s1, initial, userId, 1);
    var s2 := OnMessage(s1, initial, userId, nameDot, true).state;
    NameStepMessage(s1, initial, userId, nameDot, true);
    SenderAfterStatus(s1, s2, initial, userId, 2);
    AddStepMessage(s2, initial, userId, typeDot);
    assert s2.sessions - {userId} == s.sessions - {userId};
  }

  /** Pressing a rename button for place N (such as the one `control_dots` makes) and sending a name renames place N only, and ends idle. */
  lemma EditNameWorkflow(s: State, initial: User, userId: int, data: string, idDot: int, nameDot: string, accepted: bool)
    requires Sender(s, initial, userId).isAdmin
    requires ParseButton(data) == EditName(Some(idDot)) && FitsInteger(idDot)
    ensures var s1 := OnCallback(s, initial, userId, data).state;
      var t := OnMessage(s1, initial, userId, nameDot, accepted);
      && t.state.places == Renamed(s.places, idDot, nameDot)
      && GetStatus(t.state.users, userId) == Some(0)
      && t.state.sessions == s.sessions - {userId}
  {
    var s1 := OnButton(s, initial, userId, EditName(Some(idDot))).state;
    EditButtons(s, initial, userId, EditName(Some(idDot)), idDot);
    SenderAfterStatus(s, s1, initial, userId, 101);
    EditNameMessage(s1, initial, userId, nameDot, accepted);
  }

  /** Pressing a retype button for place N and sending a type stores that text on place N as is (a number too), and ends idle. */
  lemma EditTypeWorkflow(s: State, initial: User, userId: int, data: string, idDot: int, typeDot: string, accepted: bool)
    requires Sender(s, initial, userId).isAdmin
    requires ParseButton(data) == EditType(Some(idDot)) && FitsInteger(idDot)
    ensures var s1 := OnCallback(s, initial, userId, data).state;
      var t := OnMessage(s1, initial, userId, typeDot, accepted);
      && t.state.places == Retyped(s.places, idDot, Text(typeDot))
      && GetStatus(t.state.users, userId) == Some(0)
      && t.state.sessions == s.sessions - {userId}
  {
    var s1 := OnButton(s, initial, userId, EditType(Some(idDot))).state;
    EditButtons(s, initial, userId, EditType(Some(idDot)), idDot);
    SenderAfterStatus(s, s1, initial, userId, 102);
    EditTypeMessage(s1, initial, userId, typeDot, accepted);
  }

  // ---------------------------------------------------------------- class

  /** The running bot: the open database and `temp_user_data`. */
  class Bot {
    const db: Sql
    var tempUserData: map<int, Session>

    constructor (db: Sql)
      ensures this.db == db && tempUserData == map[]
    {
      this.db := db;
      tempUserData := map[];
    }

    function Snapshot(): State
      reads this, db
    {
      State(db.users, db.cityKrasnoyarsk, tempUserData)
    }

    /** `handle_message`. */
    method HandleMessage(userId: int, text: string, accepted: bool) returns (reply: Reply)
      modifies this, db
      ensures Step(Snapshot(), reply) == OnMessage(old(Snapshot()), db.initial, userId, text, accepted)
    {
      if !UserExist(db.users, userId) {
        var inserted := db.AddUser(userId);
      }
      var status := GetStatus(db.users, userId);
      var isAdmin := GetIsAdmin(db.users, userId);
      if isAdmin != Some(true) {
        return MainMenu;
      }
      if status == Some(1) {
        tempUserData := tempUserData[userId := Session(Some(text), None)];
        var nextId := NextAvailableId(db.cityKrasnoyarsk);
        reply := NameSaved(nextId);
        db.UpdateStatus(userId, 2);
        return;
      }
      if status == Some(2) {
        if userId !in tempUserData {
          return LostSession;
        }
        var nameDot := tempUserData[userId].nameDot.GetOr("");
        var actualId := db.AddDot(nameDot, text, accepted);
        if actualId.None? {
          return Failed;
        }
        db.UpdateStatus(userId, 0);
        tempUserData := tempUserData - {userId};
        return Added(actualId.value);
      }
      if status == Some(101) {
        if userId in tempUserData && tempUserData[userId].editDotId.Some? {
          var dotId := tempUserData[userId].editDotId.value;
          var done := db.SetNameDot(dotId, text);
          if !done {
            return Overflow;
          }
          reply := NameChanged(text);
          db.UpdateStatus(userId, 0);
          tempUserData := tempUserData - {userId};
          return;
        }
      }
      if status == Some(102) {
        if userId in tempUserData && tempUserData[userId].editDotId.Some? {
          var dotId := tempUserData[userId].editDotId.value;
          var done := db.SetTypeDot(dotId, text);
          if !done {
            return Overflow;
          }
          reply := TypeChanged(text);
          db.UpdateStatus(userId, 0);
          tempUserData := tempUserData - {userId};
          return;
        }
      }
      reply := AdminMenu;
    }

    /** `handle_callback`. */
    method HandleCallback(userId: int, data: string) returns (reply: Reply)
      modifies this, db
      ensures Step(Snapshot(), reply) == OnCallback(old(Snapshot()), db.initial, userId, data)
    {
      if !UserExist(db.users, userId) {
        var inserted := db.AddUser(userId);
      }
      var button := ParseButton(data);
      match button
      case AddDot =>
        reply := EnterName;
        db.UpdateStatus(userId, 1);
        if userId in tempUserData {
          tempUserData := tempUserData - {userId};
        }
      case ControlDots =>
        var dots := GetDots(db.cityKrasnoyarsk, None);
        if dots == [] {
          reply := NoPlaces;
        } else {
          var keyboards := BuildKeyboards(dots);
          reply := ChoosePlace(keyboards);
        }
      case EditName(id) =>
        if id.None? {
          return BadPayload;
        }
        db.UpdateStatus(userId, 101);
        tempUserData := tempUserData[userId := Session(None, id)];
        reply := EnterNewName;
      case EditType(id) =>
        if id.None? {
          return BadPayload;
        }
        db.UpdateStatus(userId, 102);
        tempUserData := tempUserData[userId := Session(None, id)];
        reply := EnterNewType;
      case Delete(id) =>
        if id.None? {
          return BadPayload;
        }
        var done := db.DeleteDots(id.value);
        reply := if done then PlaceDeleted else Overflow;
      case DotsInKrasnoyarsk =>
        var dots := GetDots(db.cityKrasnoyarsk, None);
        reply := if dots == [] then NoPlaces else PlaceList(dots);
      case MyDots =>
        reply := InDevelopment;
      case FavouriteDots =>
        reply := InDevelopment;
      case Unknown =>
        reply := UnknownCommand;
    }
  }
}
