# Mini RPG backend: a Dafny model of its game logic

The backend is one Flask module (`mySQL/app.py`) of session-gated JSON
handlers over a MySQL schema for a small role-playing game. This project
models the handlers that hold logic beyond a single pass-through SELECT. The
database is a set of in-memory tables and the Flask session is one optional
user id. The modelled parts are:

- the login state machine: ordered rejections, lookup by user id or email,
  and the session it sets; `logout`; the 401 gate of every protected handler;
- the class-hierarchy listing of `GET /class/all`: the meaning of its SQL
  filter (one parent level, via LEFT JOIN) and the two-pass build of the
  `root id -> {name, color, child[]}` map, including the 500 answer when a
  listed child's parent is not a listed root;
- the world snapshot of `GET /world/all/<id>`: the split of the fetched rows
  into an ordered NPC list and one player record with the NPC columns
  deleted;
- the purchase rule of `POST /buy`: increment an owned (character, item) pair,
  otherwise insert a row with the requested count;
- characters: soft delete of the session user's row, the hard delete that
  frees a soft-deleted nickname before creation, creation itself (stat copy,
  reclaim, insert), the progress update, and the listing and detail queries.

Files:

- `common.dfy` (`Common`): `Option`, the status codes, Python truthiness of
  optional fields.
- `sessions.dfy` (`Sessions`): users, the session, the login decision as a
  function.
- `class_tree.dfy` (`ClassTree`): class rows, the listing filter, the tree
  specification, the two-loop `BuildTree` method and its lemmas.
- `world.dfy` (`World`): rows as `map<string, Value>` (the dictionary
  cursor), the partition specification and the `PartitionWorld` loop.
- `inventory.dfy` (`Inventory`): inventory rows, the lookup, the count update
  and the purchase rule.
- `characters.dfy` (`Characters`): character rows and the statements and
  queries over them.
- `backend.dfy` (`Backend`): class `Server`, which holds the session and the
  tables, with one method per handler. `Valid()` holds the keys the schema
  guarantees.

Tables are sequences in table order, so `fetchone` is "the first matching
row". Probing a table that lacks a row is an ordinary result, not a
precondition. The handlers' answers are `Status` values (`OK` = 200,
`Created` = 201, `BadRequest` = 400, `Unauthorized` = 401, `NotFound` = 404,
`InternalError` = 500).

Points where the model makes the code's behaviour explicit:

- The comment at mySQL/app.py:381 states the intent that a locked parent
  class locks all its children, at every depth. The query under it checks
  only the direct parent (mySQL/app.py:386-388). The model follows the code. `DeepHierarchyFails` and
  `ClosedGrandparentExample` prove what happens below two levels. A grandchild
  of a closed root still passes the filter. The listing then fails as a whole
  with 500 and does not hide it. When the listing succeeds, every listed class
  does have an open ancestor chain (`ListingShowsOnlyOpenChains`).
- The insert of a character fails when its nickname is still held by any row.
  This models a UNIQUE key on `nickname` over the whole table. The purge of
  soft-deleted rows before the insert (mySQL/app.py:254, 300) exists because of
  that key. The schema file is not part of this model. The stat row and the
  purge are committed before the insert, so they persist when it fails.
- `not class_id` treats class id 0 as missing (400). `not nickname` and
  `not password` treat the empty string as missing. `user_id is None`
  accepts an empty user id.
- The progress update's WHERE clause does not exclude soft-deleted
  characters, so they can still be updated. Buying does not check that the
  character belongs to the session user.
- A pair whose first row has a NULL or non-positive count is not
  incremented. A second purchase appends a second row for it
  (`BuyDuplicatesNonPositive`). This assumes the inventory table has no
  unique key on (`char_id`, `item_id`). The schema is not part of this
  model. With such a key, that INSERT (mySQL/app.py:712-716) would fail and the
  handler would answer 500 (mySQL/app.py:719-721).
- The class listing assumes `class_id` is the primary key (`Keyed`, required
  by `ClassQuery`). Without that key the LEFT JOIN would return a child once
  for every open parent row with its id.

## Model

| member | source | states |
|---|---|---|
| `Sessions.FindUser` | mySQL/app.py:69-75 | no row exactly when no user's id or email equals the presented value; otherwise the first such row in table order |
| `Sessions.Login` | mySQL/app.py:57-84 | a login answers 200 exactly when nobody was logged in and it leaves someone logged in; every other answer leaves the session as it was and returns no `last_char` |
| `Sessions.LoginSucceedsIff` | mySQL/app.py:57-84 | login answers 200 iff nobody is logged in, both arguments are present and the first id-or-email match has the presented password; the session then holds that row's own `user_id` and `last_char` is its `last_accessed_char` |
| `Sessions.LoginRejections` | mySQL/app.py:57-80 | the ordered rejections: already logged in gives 400 with the session unchanged, missing password/user id gives 400, no matching user gives 404, wrong password on the first match gives 404; no rejected login changes the session |
| `Sessions.LoginAuthentic` | mySQL/app.py:79-82 | whoever the session names after login was already logged in or is a user whose stored password equals the presented one |
| `Backend.Server.Login` | mySQL/app.py:55-84 | the handler's status, new session and `last_char` are those of the login decision; no table changes |
| `Backend.Server.Logout` | mySQL/app.py:112-115 | the session is empty afterwards, whatever it held, and the answer is 200 |
| `ClassTree.Select` | mySQL/app.py:382-389 | a row is selected iff it is in the table and is an open root, or is open with an open direct parent row |
| `ClassTree.BuildTree` | mySQL/app.py:394-406 | the two loops yield exactly `Tree(rows)`: None when a child's parent is not a root row, otherwise the map of every root id to its node with its children in row order |
| `ClassTree.RootIdsMember` | mySQL/app.py:395-401 | the map's keys are exactly the class ids of the rows with no parent |
| `ClassTree.LastRootIsLast` | mySQL/app.py:395-401 | a key's name and colour come from the last root row with that id (the first pass overwrites) |
| `ClassTree.ChildrenAppend` | mySQL/app.py:402-406 | children are appended in row order: the list for a concatenation of rows is the concatenation of the lists |
| `ClassTree.ChildrenMember` | mySQL/app.py:402-406 | an entry is in root k's child list iff some row names k as its parent and has that id, name and colour |
| `ClassTree.ChildCount` | mySQL/app.py:402-406 | root k has as many children as there are rows whose parent is k |
| `ClassTree.TreeFailsIff` | mySQL/app.py:402-412 | the build fails (500, no partial map) iff some non-root row's parent is the id of no root row |
| `ClassTree.TreeShape` | mySQL/app.py:394-406 | on success every root row has its key, every other row is in its parent's child list, and nothing else is listed |
| `ClassTree.ListingShowsOnlyOpenChains` | mySQL/app.py:381-406 | when the listing succeeds, each key's class row is an open root and each listed child is an open class under that root, so every listed class has an open ancestor chain |
| `ClassTree.DeepHierarchyFails` | mySQL/app.py:382-412 | an open class under an open non-root class makes the whole listing fail: only one ancestor level is filtered |
| `ClassTree.ClosedGrandparentExample` | mySQL/app.py:381-412 | with a closed root, an open middle class and an open leaf, the middle is filtered out, the leaf passes, and the listing fails |
| `Backend.Server.GetAllClass` | mySQL/app.py:376-412 | 401 without a session; otherwise the answer is the tree of the filtered class table, 200 with it or 500 without it |
| `World.PartitionWorld` | mySQL/app.py:575-585 | the loop yields exactly `Partition(rows)`: None when a row lacks `entity_type` or a player row lacks a column to delete, otherwise the NPC rows and the last player row stripped |
| `World.NpcRowsAppend` | mySQL/app.py:576-578 | NPC rows keep fetch order: the list of a concatenation is the concatenation of the lists |
| `World.NpcRowsMember` | mySQL/app.py:576-578 | a row is in `npc` iff it is a fetched row whose `entity_type` is "npc" |
| `World.LastPlayerIsLast` | mySQL/app.py:579-585 | `player` is None iff no row is player-typed; otherwise it is the last player-typed row with the NPC columns removed |
| `World.StripKeepsOtherColumns` | mySQL/app.py:581-585 | the player record keeps every column and value of its row except `npc_id`, `name`, `career`, `entity_img`, `detail_img` |
| `World.PartitionComplete` | mySQL/app.py:575-585 | on success every row is exactly one of NPC or player, `npc` holds exactly the NPC rows, and `player` is None iff all rows are NPC rows |
| `Backend.Server.GetWorldData` | mySQL/app.py:565-588 | 401 without a session; otherwise the partition of the fetched rows, 200 with it or 500 without it |
| `Inventory.AlreadyItem` | mySQL/app.py:724-731 | no row exactly when the pair has no inventory row; otherwise the first row of the pair |
| `Inventory.SetCount` | mySQL/app.py:736-743 | every row of the pair gets the new count; every other row and the row order are unchanged |
| `Inventory.Buy` | mySQL/app.py:706-718 | the purchase adds no row for an owned pair and exactly one row otherwise; rows of other pairs keep their values |
| `Inventory.BuyRule` | mySQL/app.py:706-718 | an owned pair gets the count of its first row, which is positive, + 1 on all its rows whatever count was requested, and no row is added; otherwise exactly one row with the requested count is appended; rows of other pairs never change |
| `Inventory.BuyTwiceIncrements` | mySQL/app.py:706-718 | buying an unowned item with count 1 and then again leaves one row for the pair, with count 2 |
| `Inventory.BuyDuplicatesNonPositive` | mySQL/app.py:707-713 | a first purchase with a NULL or non-positive count is not incremented later: a second purchase appends a second row for the pair |
| `Inventory.BuyDistinctItems` | mySQL/app.py:712-718 | buying two different unowned items adds two rows |
| `Backend.Server.AddAlreadyItem` | mySQL/app.py:736-743 | the inventory becomes the count update of the pair |
| `Backend.Server.InsertInventory` | mySQL/app.py:691-718 | 401 and no change without a session; 400 and no change without char or item id; otherwise 201 and the inventory after the purchase rule |
| `Characters.SoftDelete` | mySQL/app.py:287 | only rows matching both the character id and the user are marked deleted; every other row is unchanged and the table keeps its length |
| `Characters.PurgeNickname` | mySQL/app.py:300 | a row survives iff it is not a soft-deleted row with that nickname, of any owner |
| `Characters.UpdateProgress` | mySQL/app.py:335 | rows matching both id and user, deleted or not, get the new level, coin, exp and hp; all other rows are unchanged |
| `Characters.FindClass` | mySQL/app.py:179 | the class row of the join: none iff no class row has the id, otherwise a class row with that id |
| `Characters.Listing` | mySQL/app.py:175-181 | every listed character is a table row of the session user that is not soft-deleted and has a class row, listed with that class's name and colour; every such row is listed |
| `Characters.Detail` | mySQL/app.py:210-227 | none (404) iff no row matches id, user, not deleted and an existing stat row; otherwise such a row with its stat row |
| `Characters.SoftDeletedHidden` | mySQL/app.py:175-227 | after the owner's soft delete the character appears neither in the owner's listing nor in the detail query |
| `Characters.SoftDeleteKeepsOthers` | mySQL/app.py:287 | a soft delete leaves every other user's listing unchanged |
| `Characters.PurgeAppend` | mySQL/app.py:300 | the hard delete keeps the surviving rows in table order |
| `Characters.PurgeSparesLive` | mySQL/app.py:300 | without a soft-deleted row of that nickname the hard delete changes nothing: live characters are never purged |
| `Characters.ReclaimFreesNickname` | mySQL/app.py:254-257 | after the hard delete the nickname is held iff a live character holds it |
| `Backend.PurgeKeepsKeys` | mySQL/app.py:299-307 | the hard delete keeps character ids and nicknames unique |
| `Backend.NewCharacter` | mySQL/app.py:257-265 | the inserted row is live, belongs to the session user, carries the requested class, nickname and gender, the new stat id and the template's hp, and has level, coin and exp at their column defaults |
| `Backend.AppendKeepsKeys` | mySQL/app.py:257-269 | inserting a row whose id and nickname no row has keeps both keys unique |
| `Backend.Server.GetAllCharacters` | mySQL/app.py:159-189 | 401 and no data without a session; otherwise 200 with the session user's listing |
| `Backend.Server.GetCharacter` | mySQL/app.py:193-227 | 401 without a session; otherwise the detail of the session user's live character, 200 with it and 404 without it |
| `Backend.Server.CreateStatWithClassId` | mySQL/app.py:442-450 | with a template for the class, a copy is stored under the next stat id and its hp returned; without one, nothing changes |
| `Backend.Server.ForceDeleteCharacterByNickname` | mySQL/app.py:299-307 | the character table becomes its hard delete of soft-deleted rows with that nickname |
| `Backend.Server.CreateCharacter` | mySQL/app.py:233-277 | 401, then 400 (class id falsy or nickname empty), then 500 for a missing template, all with no change; otherwise a stat copy is stored, soft-deleted rows with the nickname are purged, and the insert either fails with 500 (nickname still held) or appends the new live row with the next id and answers 201 |
| `Backend.Server.DeleteCharacter` | mySQL/app.py:281-293 | 401 and no change without a session; otherwise 201 and the soft delete of the session user's row with that id |
| `Backend.Server.UpdateCharacterData` | mySQL/app.py:314-341 | 401, then 400 for any missing field, with no change; otherwise 200 and the progress update of the session user's row |
| `Backend.ReuseNicknameScenario` | mySQL/app.py:254-300 | after its owner soft-deletes the only character with a nickname, creating a character with that nickname answers 201 and a live character holds the nickname |

## Left out

- Flask routing, JSON parsing and `jsonify`: requests are datatypes whose fields may be absent. A body that is not JSON is not modelled.
- The signed-cookie mechanics of the session: the session is one optional user id.
- Connection handling (`get_db`, `close_db`, mySQL/app.py:16-26), commit and rollback: each statement is atomic and applies at once.
- Driver exceptions are not modelled, except the two failures with logical causes. One is a missing stat template, answered with 500. The other is an insert blocked by the unique nickname. As a result the model has no 400 for a failed hard delete (mySQL/app.py:255-256) and no 500 for a failed stat insert, driver error or other foreign-key violation.
- `NOW()` timestamps: `deleted_at` is present or absent. `last_accessed_at` is not modelled.
- The SQL text built from column lists. Queries are modelled by their WHERE and JOIN meaning. Listing and detail return whole rows, not the selected columns.
- The world query itself (world joined with npc, mySQL/app.py:569). `GetWorldData` takes the rows it fetched, so the model does not capture that a player row is returned only when some NPC has the same id.
- `create_stat_with_class_id` (mySQL/app.py:442-450): the class_stat/stat lookup is one map from class id to its level-10 template. A missing template or stat row, which the code does not catch, is a 500 with no change.
- Level, coin and exp of a new character hold the schema's column defaults. They are `progress == None` until the first update. `equip_flag` of inventory rows is not modelled, since nothing here reads or writes it.
- Auto-increment ids: the model keeps a counter. Ids a failed insert may consume are not modelled.
- Pass-through handlers with no logic are not modelled: register, `update_last_accessed`, user, users, class by id, stat, skills, max exp, single world entity, player add, position update, inventory, shop, quest accept and accepted quests.
- The random quest (mySQL/app.py:751-763) is left out because it needs a source of randomness. It returns one of the NPC's quests, chosen by `random.choice`, and answers 500 when there is none.
- Plaintext password comparison is modelled as the string equality the code uses.
- String comparison in SQL is modelled as exact equality. This applies to the user id or email in the login lookup, the nickname in the purge and the unique key, and the user id in the ownership tests. Under a case-insensitive collation, MySQL would also match, for example, `alice` against a stored `Alice`. That behaviour belongs to the database, and this model does not capture it.
- Fetch order: the SELECTs without ORDER BY (mySQL/app.py:69, 175-181, 382-389, 725) are taken to return rows in table order. That order fixes which row `fetchone` returns, the order of the character listing, and the order of the class children. The database does not promise any order, and this model does not capture other orders.
- Concurrency: the check-then-insert of a purchase and the steps of character creation are not atomic in the source. The model runs one request at a time.
