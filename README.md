# GoLocal bot: conversation state machine and place store

A Dafny model of the core of the GoLocal Telegram bot, which keeps a
directory of places in Krasnoyarsk. It has two parts:

- The SQLite store (class `SQL` in `base.py`). It has a `users` table
  (id, status, is_admin) and a `city_krasnoyarsk` table
  (id_dot, name_dot, type_dot). The model is module `Store`. The queries
  (`user_exist`, `get_field`, `get_next_available_id`, `get_dots`,
  `get_id_dot_krasnoyarsk`) are functions of the table values. The
  statements that write (`add_user`, `update_field`,
  `add_dot_krasnoyarsk`, and the UPDATE and DELETE statements that
  `main.py` runs directly) are methods of class `Store.Sql`. Each one
  states its new tables as a function of the old ones.
- The per-user conversation in `main.py` (`handle_message`,
  `handle_callback` and the session map `temp_user_data`). The model is
  module `Conversation`. The functions `OnMessage` and `OnCallback` give,
  for one incoming event, the new users table, place table and session map,
  plus an abstract reply. The methods `Bot.HandleMessage` and
  `Bot.HandleCallback` run the handler's steps against a `Store.Sql` object
  and a `tempUserData` field, and they are proved to end in exactly that
  state and reply. The lemmas state what each status and each button
  changes and what it leaves alone. They also prove whole workflows: add a
  place (button, name, type), rename a place, and retype a place.

Supporting modules:
- `PyInt` models Python's `int(text)` (simplified, see below) and `str(n)`,
  and proves `int(str(n)) == n`.
- `Buttons` models how `handle_callback` classifies payloads: the exact
  tags, the prefixes `edit_name_`, `edit_type_` and `delete_`, and the
  `split(prefix)[1]` suffix. It also builds the keyboards that
  `control_dots` makes. It proves that each generated button parses back to
  the place it was made for.

The place table is a sequence of rows in table order, not a map. The schema
is not part of this model, so nothing makes `id_dot` a key. Every
`WHERE id_dot = ?` therefore acts on all matching rows, as SQL does. What
keeps ids distinct is the `max + 1` allocation. `Store.TableInvariant` says
that ids are distinct and every stored integer fits a 64-bit INTEGER. Both
handlers keep it (`Conversation.MessageKeepsTableInvariant`,
`Conversation.ButtonKeepsTableInvariant`).
The users table is a map keyed by id.

The row that `add_user` inserts takes its status and `is_admin` from the
schema's defaults, which are not shown. They are the `initial` parameter of
the store's constructor. The database's verdict on the INSERT in
`add_dot_krasnoyarsk`, for reasons of its own schema, is the `accepted`
parameter of `Sql.AddDot` and `Bot.HandleMessage`.

Python's `sqlite3` binds an `int` as a 64-bit INTEGER. It raises
`OverflowError` for a value outside that range before the statement runs.
The model states this with `Store.FitsInteger`:
- In `add_dot_krasnoyarsk`, a next id or a typed number out of range makes
  the INSERT raise. `handle_message` catches it (main.py:110-112): the error
  is answered, and status and session stay.
- An out-of-range id in `edit_name_N`, `edit_type_N` or `delete_N` is read by
  `int` without complaint. The UPDATE at main.py:120 or 130, or the DELETE at
  main.py:202, then raises. Nothing catches it, so nothing changes and the
  reply is `Overflow`.

Behaviours of the code worth knowing:
- The add workflow is name then type only, with no address or photo step
  (main.py:78-113).
- A type that is not a number is stored as text. It is not rejected and the
  user is not asked again (base.py:52-56).
- A lost session at status 2 leaves the status at 2 (main.py:92-95).
- Editing a type stores the raw text without parsing it (main.py:130).
- The bot asks for no admin right on any button (main.py:157-199).

## Model

| member | source | states |
|---|---|---|
| `Store.Sql.constructor` | base.py:5-7 | opening a database that already holds the given tables and default user row |
| `Store.Sql.AddUser` | base.py:10-21 | an unknown id gets a row with the default fields, after which `user_exist` holds; no other row changes; a duplicate id is refused and changes nothing |
| `Store.UserExist` | base.py:17-21 | `user_exist(id)`: whether the users table has a row for the id; `GetStatus` and `GetIsAdmin` answer exactly when it holds |
| `Store.GetStatus` | base.py:24-31 | `get_field(users, id, status)` is the stored status exactly when the row exists, `None` otherwise |
| `Store.GetIsAdmin` | base.py:24-31 | `get_field(users, id, is_admin)` is the stored flag exactly when the row exists, `None` otherwise |
| `Store.WithStatus` | base.py:33-37 | `update_field` on status: afterwards `get_field` reads the new status, the admin flag and every other row are unchanged, no row is added, and a missing id changes nothing |
| `Store.Sql.UpdateStatus` | base.py:33-37 | the users table becomes `WithStatus` of the old one; the place table is untouched |
| `Store.MaxIdDot` | base.py:41-44 | `SELECT MAX(id_dot)` of a non-empty table; `MaxIdDotIsMax` proves it is the maximum |
| `Store.NextAvailableId` | base.py:40-45 | `get_next_available_id`: max + 1, or 1 when `MAX` is NULL on an empty table; `NextAvailableIdAboveAll` proves it exceeds every id |
| `Store.MaxIdDotIsMax` | base.py:41-44 | `MAX(id_dot)` of a non-empty table is at least every id and is the id of some row |
| `Store.NextAvailableIdAboveAll` | base.py:40-45 | 1 on an empty table, otherwise some row's id plus one; strictly greater than every existing id |
| `Store.TypeValueOf` | base.py:52-56 | the stored type is `Int(n)` exactly when `int(text)` gives `n`, otherwise the original text unchanged |
| `Store.TypeValueOfNumber` | base.py:52-56 | the text of any integer is stored as that integer |
| `Store.TypeValueOfWords` | base.py:52-56 | text with no digit is stored unchanged, as text |
| `Store.Sql.AddDot` | base.py:48-62 | the INSERT succeeds exactly when the database accepts it and the next id and parsed type fit a 64-bit INTEGER; then exactly one row is appended, its id is `get_next_available_id` taken just before and is returned, and every earlier row is kept; otherwise nothing changes |
| `Store.AddKeepsInvariant` | base.py:48-62 | appending a row with the next id, when its values bind, keeps the ids distinct and every stored integer in range |
| `Store.NewRowIsOnlyOneWithId` | base.py:48-62 | after the append, `get_dots(table, id)` for the new id returns exactly the new row |
| `Store.Filter` | base.py:70-72 | a `WHERE` selection keeps each selected row as often as the table holds it, and no other row |
| `Store.GetDots` | base.py:64-72 | without an id, every row; with id N, exactly the rows whose id_dot is N, each as often as the table holds it |
| `Store.IdDotOfName` | base.py:74-81 | `None` exactly when no row has that name, otherwise the id of some row with that name |
| `Store.Renamed` | main.py:120 | the table after the `UPDATE ... SET name_dot`; `RenamedRows` states it row by row |
| `Store.RenamedRows` | main.py:120-121 | only the names of rows with id N change; ids, types, order and every other row stay |
| `Store.RenameKeepsInvariant` | main.py:120-121 | a rename keeps the ids distinct and every stored integer in range |
| `Store.Sql.SetNameDot` | main.py:120-121 | the statement runs exactly when the id fits a 64-bit INTEGER; then the place table becomes `Renamed` of the old one, otherwise it stays; users untouched |
| `Store.RenamedTargetsOnlyId` | main.py:120-121 | after the rename, every row with id N has the new name and every row with another id is unchanged |
| `Store.Retyped` | main.py:130 | the table after the `UPDATE ... SET type_dot`; `RetypedRows` states it row by row |
| `Store.RetypedRows` | main.py:130-131 | only the types of rows with id N change, to the given value; ids, names and every other row stay |
| `Store.RetypeKeepsInvariant` | main.py:130-131 | a retype with a bindable value keeps the ids distinct and every stored integer in range |
| `Store.Sql.SetTypeDot` | main.py:130-131 | the statement runs exactly when the id fits a 64-bit INTEGER; then the place table becomes `Retyped` of the old one with the raw text as type, otherwise it stays; users untouched |
| `Store.Deleted` | main.py:202-204 | removes every row with id N and keeps every other row as often as the table holds it |
| `Store.DeleteKeepsInvariant` | main.py:202-204 | a delete keeps the ids distinct and every stored integer in range |
| `Store.Sql.DeleteDots` | main.py:202-204 | the statement runs exactly when the id fits a 64-bit INTEGER; then the place table becomes `Deleted` of the old one, otherwise it stays; users untouched |
| `Store.DeletedRemovesExactly` | main.py:202-204 | after the delete, no row has id N and every row with another id is still there |
| `PyInt.ParseInt` | base.py:53-56 | `int(text)`: the number Python returns, or `None` where it raises `ValueError`; its properties are `ParseIntShowInt`, `ParseIntNeedsDigit` and `ParseIntIgnoresSpace` |
| `PyInt.ShowInt` | main.py:176-178 | `str(n)` as the f-strings write an id; `ParseIntShowInt` proves `int` reads it back |
| `PyInt.DigitsValueShowNat` | main.py:176-178 | the decimal digits written for a natural number read back as that number |
| `PyInt.ParseIntShowInt` | base.py:54 | `int(str(n)) == n` for every integer |
| `PyInt.ParseIntNeedsDigit` | base.py:53-56 | `int` raises on text without a digit |
| `PyInt.ParseIntIgnoresSpace` | base.py:54 | whitespace of any length before and after the text does not change what `int` reads |
| `Buttons.FirstPiece` | main.py:189 | `split(prefix)[1]` is a prefix of the rest of the payload that contains no occurrence of the separator and ends where the first one starts, or is all of the rest |
| `Buttons.SuffixId` | main.py:189 | `int(data.split(prefix)[1])` for a payload that starts with the prefix, `None` where `int` raises |
| `Buttons.ParseButton` | main.py:157-261 | each exact tag is recognised exactly when the payload equals it; the edit-name, edit-type and delete branches are taken exactly when the payload starts with their prefix, with the id `int` reads from the suffix |
| `Buttons.PrefixesExclusive` | main.py:157-200 | no payload has two of the prefixes and no exact tag has any, so the order of the tests decides nothing among them |
| `Buttons.ButtonsFor` | main.py:174-180 | the three payloads `control_dots` attaches to place N; `ParseButtonsFor` proves each acts on N |
| `Buttons.Keyboards` | main.py:172-180 | one `ButtonsFor` per row, in the order `get_dots` returned the rows; `BuildKeyboards` computes it with the loop |
| `Buttons.BuildKeyboards` | main.py:172-183 | the loop of `control_dots` makes one keyboard per row, in the order `get_dots` returned them, for that row's id |
| `Buttons.ParseButtonsFor` | main.py:174-201 | each of the three buttons made for place N is read back as an action on N |
| `Buttons.ParseButtonBadSuffix` | main.py:188-201 | a suffix that is not a number (`edit_name_abc`, `delete_`) yields no id |
| `Buttons.ParseButtonRepeatedPrefix` | main.py:188-189 | the suffix ends at the next occurrence of the prefix: `edit_name_5edit_name_6` edits place 5 |
| `Conversation.OnMessage` | main.py:55-139 | `handle_message` for one text, branch by branch: the new users table, place table, session map and reply; its properties are the message lemmas below |
| `Conversation.OnCallback` | main.py:143-261 | `handle_callback` for one payload: `OnButton` of the payload as `ParseButton` classifies it |
| `Conversation.OnButton` | main.py:151-261 | `handle_callback` once the payload is classified, branch by branch; its properties are the button lemmas below |
| `Conversation.Register` | main.py:62-65 | after registration the sender exists, every existing row is unchanged, and only an unknown sender is added, with the default row |
| `Conversation.MessageRegistersSender` | main.py:62-68 | a text message registers an unknown sender once; a known one keeps their row; no other user's row or session changes; the sender's admin flag never changes |
| `Conversation.NonAdminMessage` | main.py:72-76 | a non-admin's text, at any status, gets the main menu and changes no status, session or place |
| `Conversation.NameStepMessage` | main.py:78-88 | admin at status 1: the session becomes exactly `{name_dot: text}`, overwriting any entry; the status becomes 2; the places stay; the reply carries the next id |
| `Conversation.LostSessionMessage` | main.py:90-95 | admin at status 2 without a session: reply LostSession; the status stays 2; nothing else changes |
| `Conversation.AddStepMessage` | main.py:97-108 | admin at status 2 with a session, insert accepted and its values in range: exactly one place is appended with id old max + 1 (or 1), the session's name or "" and the parsed type; it is the only row with that id; status 0; only the sender's session is removed |
| `Conversation.AddStepRefused` | main.py:91-113 | admin at status 2 when the INSERT raises (refused, or a value out of range): the reply is the error when a session exists and LostSession otherwise; status stays 2, sessions and places unchanged |
| `Conversation.HugeTypeRefused` | main.py:97-112 | a typed number outside the INTEGER range (such as `99999999999999999999`) is answered with the error and adds no place |
| `Conversation.EditNameMessage` | main.py:116-125 | admin at status 101 with `edit_dot_id = N` in range: only the names of rows N change; status 0; the session is removed |
| `Conversation.EditTypeMessage` | main.py:126-135 | admin at status 102 with `edit_dot_id = N` in range: the types of rows N become the raw text, not parsed; status 0; the session is removed |
| `Conversation.EditOverflowMessage` | main.py:116-135 | at 101 or 102 with a target outside the INTEGER range, the UPDATE raises: reply Overflow; status, session and places stay |
| `Conversation.AdminMenuMessage` | main.py:115-139 | admin at 101 or 102 without `edit_dot_id`, or at any status other than 1 and 2: admin menu and no change |
| `Conversation.CallbackRegistersSender` | main.py:151-154 | a button press registers an unknown sender; no other user's row or session changes; the sender's admin flag never changes |
| `Conversation.AddDotButton` | main.py:157-162 | `add_dot`, by anyone: status 1, the sender's session removed, places unchanged |
| `Conversation.EditButtons` | main.py:188-199 | `edit_name_N` and `edit_type_N`, by anyone: status 101 or 102 and the session exactly `{edit_dot_id: N}`; places unchanged |
| `Conversation.BadPayloadButton` | main.py:188-201 | a suffix `int` cannot read stops the press after registration, with no other change |
| `Conversation.DeleteButton` | main.py:200-207 | `delete_N` with N in range removes exactly the rows with id N, keeps every other row, and changes no status or session |
| `Conversation.DeleteOverflowButton` | main.py:200-202 | `delete_N` with N outside the INTEGER range: the DELETE raises, reply Overflow, nothing changes but the registration |
| `Conversation.ReadOnlyButtons` | main.py:164-261 | `control_dots`, `dots_in_krasnoyarsk`, `my_dots`, `favourite_dots` and unknown payloads change nothing but the registration |
| `Conversation.ControlDotsButtons` | main.py:164-185 | `control_dots` offers, for every place in the order `get_dots` returned them, rename, retype and delete buttons that act on that place |
| `Conversation.MessageKeepsTableInvariant` | main.py:97-135 | every text message keeps the place ids distinct and every stored integer in range |
| `Conversation.ButtonKeepsTableInvariant` | main.py:157-261 | every button press keeps the place ids distinct and every stored integer in range |
| `Conversation.AddWorkflow` | main.py:78-113 | an admin pressing `add_dot`, then sending a name and a type whose INSERT binds, adds exactly that place with the next id and ends at status 0 with no session |
| `Conversation.EditNameWorkflow` | main.py:116-192 | pressing a rename button for place N in range (every button `control_dots` makes is one, by `Buttons.ParseButtonsFor`) and sending a name renames only place N and ends at status 0 with no session |
| `Conversation.EditTypeWorkflow` | main.py:126-198 | pressing a retype button for place N in range and sending a type stores the raw text on place N and ends at status 0 with no session |
| `Conversation.Bot.constructor` | main.py:20-23 | the bot starts over the given database with an empty `temp_user_data` |
| `Conversation.Bot.HandleMessage` | main.py:55-139 | the users table, place table, session map and reply after the call are those that `OnMessage` gives for the state before |
| `Conversation.Bot.HandleCallback` | main.py:143-261 | the users table, place table, session map and reply after the call are those that `OnCallback` gives for the state before |

## Left out

- The Telegram transport (`Bot`, `Dispatcher`, `message.answer`, `call.answer`, `bot.delete_message`, keyboard objects) is replaced by the abstract `Reply` tags. Failures of these calls are not modelled, including a `delete_message` failure between the DELETE and its commit.
- Logging, the `asyncio` start-up, polling, `main()` and `error_handler` are process plumbing. An exception that leaves a handler is the reply `BadPayload` (a suffix `int` cannot read) or `Overflow` (a place id `sqlite3` cannot bind).
- SQLite itself (connection, cursors, commits, `close`) is replaced by the two tables as values. So are column type affinity and the unshown schema: a value that binds is stored as given. Only the 64-bit INTEGER range is checked when binding.
- User ids are taken as any integer. Telegram's ids fit a 64-bit INTEGER, so binding them in `user_exist`, `add_user` and `update_field` never raises, and the model does not check it.
- Store.GetDots: with an id outside the INTEGER range, the query raises `OverflowError`; the model returns no rows. The bot never calls `get_dots` with an id.
- Store.GetDots: SQL without `ORDER BY` promises no row order. The model returns rows in table order, so the listings and `control_dots` keyboards follow it. `Store.Filter` states only which rows come back, and how often.
- PyInt.ParseInt: the limit on the number of digits in Python 3.11 and later (4300 by default, above which `int` raises `ValueError`) is not modelled. Python stores such a text as text. The model reads it as a number, which does not fit an INTEGER, so the INSERT is answered with the error.
- `update_field` and `get_field` take any table and field name. Only `users.status` (written) and `users.status`/`users.is_admin` (read) are used, and only those are modelled.
- Storage failures other than the INTEGER range and the refused INSERT in `add_dot_krasnoyarsk` are not modelled, for example an `update_field` that raises after a successful insert.
- Store.Sql.AddUser: what a duplicate INSERT does depends on the unshown schema. The model refuses it and changes nothing. The bot always checks `user_exist` first.
- Store.TypeValueOf: integer recognition uses a simplified `int()`: ASCII whitespace (codes 9 to 13 and space), one optional sign and ASCII digits. Python also takes underscores between digits and non-ASCII digits and spaces.
- Messages without text (photos, stickers) have `message.text` set to `None`. The model takes every message text as a string.
- Concurrency between handler tasks, and the race on `max + 1`, are out of scope: events are applied one at a time.
- The human-readable text is presentation only: message wording, the type labels and the rating column shown by `dots_in_krasnoyarsk`. The listing reply carries the rows themselves.
- `is_admin` is a boolean, so integer truth values other than 0 and 1 are not distinguished.
- Favourites, reviews, ratings, addresses and photos do not exist in this code.
