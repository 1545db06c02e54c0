/** The request handlers of the game backend over in-memory tables.

    One `Server` object holds the session (one optional user id) and the
    tables the modelled handlers read and write. Each handler method is one
    request: it checks the session first and answers 401 without touching
    any table when nobody is logged in, then validates its arguments (400),
    then runs its statements, each of which is atomic. */
module Backend {
  import opened Common
  import opened Sessions
  import opened ClassTree
  import opened World
  import opened Inventory
  import opened Characters

  /** The JSON fields `create_character` reads. */
  datatype CreateRequest = CreateRequest(classId: Option<int>, nickname: Option<string>, gender: Option<string>)

  /** `not class_id or not nickname` is false: a class id of 0 and an empty
      nickname both count as missing. */
  predicate CreateArgsPresent(req: CreateRequest) {
    PresentInt(req.classId) && PresentString(req.nickname)
  }

  /** The JSON fields `update_character_data` reads. */
  datatype UpdateRequest = UpdateRequest(charId: Option<int>, level: Option<int>, coin: Option<int>, exp: Option<int>, hp: Option<int>)

  /** Every field is tested with `is None`, so zero values are accepted. */
  predicate UpdateArgsPresent(req: UpdateRequest) {
    req.charId.Some? && req.level.Some? && req.coin.Some? && req.exp.Some? && req.hp.Some?
  }

  /** The JSON fields `insert_inventory` reads. */
  datatype BuyRequest = BuyRequest(charId: Option<int>, itemId: Option<int>, count: Option<int>)

  /** `char_id` is the primary key of the character table. */
  predicate DistinctIds(chars: seq<Character>) {
    forall i, j :: 0 <= i < j < |chars| ==> chars[i].charId != chars[j].charId
  }

  /** `nickname` is unique over the whole character table, soft-deleted rows
      included: this is why a reused nickname must first be hard-deleted. */
  predicate DistinctNicknames(chars: seq<Character>) {
    forall i, j :: 0 <= i < j < |chars| ==> chars[i].nickname != chars[j].nickname
  }

  /** The reclaim keeps both keys unique. */
  lemma {:induction false} PurgeKeepsKeys(chars: seq<Character>, nickname: string)
    requires DistinctIds(chars) && DistinctNicknames(chars)
    ensures DistinctIds(PurgeNickname(chars, nickname)) && DistinctNicknames(PurgeNickname(chars, nickname))
  {
    if chars != [] {
      PurgeKeepsKeys(chars[1..], nickname);
      var rest := PurgeNickname(chars[1..], nickname);
      forall c | c in rest ensures c.charId != chars[0].charId && c.nickname != chars[0].nickname {
        var k :| 0 <= k < |chars[1..]| && chars[1..][k] == c;
        assert chars[k + 1] == c;
      }
    }
  }

  /** Inserting a row whose keys no row has keeps both keys unique. */
  lemma AppendKeepsKeys(chars: seq<Character>, c: Character)
    requires DistinctIds(chars) && DistinctNicknames(chars)
    requires forall k :: 0 <= k < |chars| ==> chars[k].charId != c.charId
    requires !NicknameTaken(chars, c.nickname)
    ensures DistinctIds(chars + [c]) && DistinctNicknames(chars + [c])
  {
  }

  /** The row `create_character` inserts. */
  function NewCharacter(charId: int, user: UserId, req: CreateRequest, statId: int, template: Stat): (r: Character)
    requires req.classId.Some? && req.nickname.Some?
    ensures !r.deleted && r.progress.None?
    ensures r.charId == charId && r.userId == user && r.statId == statId && r.hp == template.hp
    ensures r.classId == req.classId.value && r.nickname == req.nickname.value && r.gender == req.gender
  {
    Character(charId, user, req.classId.value, req.nickname.value, req.gender, statId, template.hp, None, false)
  }

  class Server {
    var session: Session
    var users: seq<User>
    var classes: seq<ClassRow>
    var characters: seq<Character>
    /** The stat rows owned by characters. */
    var stats: map<int, Stat>
    /** The level-10 stat template of each class (`class_stat` joined with `stat`). */
    var templates: map<ClassId, Stat>
    var inventory: seq<InvRow>
    /** The next auto-increment values of `character_list` and `stat`. */
    var nextCharId: int
    var nextStatId: int

    /** The keys the schema guarantees. */
    ghost predicate Valid()
      reads this
    {
      && Keyed(classes)
      && DistinctIds(characters)
      && DistinctNicknames(characters)
      && (forall k :: 0 <= k < |characters| ==> characters[k].charId < nextCharId)
      && (forall s :: s in stats ==> s < nextStatId)
    }

    constructor (users: seq<User>, classes: seq<ClassRow>, templates: map<ClassId, Stat>)
      requires Keyed(classes)
      ensures Valid()
      ensures session.None? && this.users == users && this.classes == classes && this.templates == templates
      ensures characters == [] && stats == map[] && inventory == []
    {
      this.session := None;
      this.users := users;
      this.classes := classes;
      this.templates := templates;
      this.characters := [];
      this.stats := map[];
      this.inventory := [];
      this.nextCharId := 1;
      this.nextStatId := 1;
    }

    // -------------------------------------------------------------------
    // Session

    /** `POST /login`: applies the login decision to the session. */
    method Login(req: LoginRequest) returns (status: Status, lastChar: Option<int>)
      modifies this`session
      ensures var o := Sessions.Login(old(session), req, users);
        status == o.status && session == o.session && lastChar == o.lastChar
    {
      if session.Some? {
        return BadRequest, None;
      }
      if !PresentString(req.password) || req.userId.None? {
        return BadRequest, None;
      }
      var row := FindUser(users, req.userId.value);
      if row.None? {
        return NotFound, None;
      }
      if row.value.password != req.password.value {
        return NotFound, None;
      }
      session := Some(row.value.userId);
      status, lastChar := OK, row.value.lastAccessedChar;
    }

    /** `GET /logout`: empties the session, whoever was logged in. */
    method Logout() returns (status: Status)
      modifies this`session
      ensures session.None? && status == OK
    {
      session := None;
      status := OK;
    }

    // -------------------------------------------------------------------
    // Classes and world

    /** `GET /class/all`. */
    method GetAllClass() returns (status: Status, data: Option<map<ClassId, Node>>)
      requires Valid()
      ensures session.None? ==> status == Unauthorized && data.None?
      ensures session.Some? ==> data == Tree(ClassQuery(classes)) && (status == OK <==> data.Some?)
      ensures session.Some? && data.None? ==> status == InternalError
    {
      if session.None? {
        return Unauthorized, None;
      }
      data := BuildTree(ClassQuery(classes));
      status := if data.Some? then OK else InternalError;
    }

    /** `GET /world/all/<id>`, given the rows its join query fetched. */
    method GetWorldData(fetched: seq<Row>) returns (status: Status, data: Option<WorldData>)
      ensures session.None? ==> status == Unauthorized && data.None?
      ensures session.Some? ==> data == Partition(fetched) && (status == OK <==> data.Some?)
      ensures session.Some? && data.None? ==> status == InternalError
    {
      if session.None? {
        return Unauthorized, None;
      }
      data := PartitionWorld(fetched);
      status := if data.Some? then OK else InternalError;
    }

    // -------------------------------------------------------------------
    // Characters

    /** `GET /characters`. */
    method GetAllCharacters() returns (status: Status, data: seq<Listed>)
      ensures session.None? ==> status == Unauthorized && data == []
      ensures session.Some? ==> status == OK && data == Listing(characters, classes, session.value)
    {
      if session.None? {
        return Unauthorized, [];
      }
      status, data := OK, Listing(characters, classes, session.value);
    }

    /** `GET /character/detail/<char_id>`. */
    method GetCharacter(charId: int) returns (status: Status, data: Option<Detailed>)
      ensures session.None? ==> status == Unauthorized && data.None?
      ensures session.Some? ==> data == Detail(characters, stats, charId, session.value)
      ensures session.Some? ==> status == if data.Some? then OK else NotFound
    {
      if session.None? {
        return Unauthorized, None;
      }
      data := Detail(characters, stats, charId, session.value);
      status := if data.Some? then OK else NotFound;
    }

    /** `create_stat_with_class_id`: copies the class's template into a new
        stat row. None stands for the uncaught failure of a missing template. */
    method CreateStatWithClassId(classId: ClassId) returns (statId: Option<int>, hp: int)
      requires Valid()
      modifies this`stats, this`nextStatId
      ensures Valid()
      ensures classId !in templates ==> statId.None? && stats == old(stats) && nextStatId == old(nextStatId)
      ensures classId in templates ==>
        && statId == Some(old(nextStatId))
        && hp == templates[classId].hp
        && stats == old(stats)[old(nextStatId) := templates[classId]]
        && nextStatId == old(nextStatId) + 1
    {
      if classId !in templates {
        return None, 0;
      }
      var template := templates[classId];
      statId := Some(nextStatId);
      stats := stats[nextStatId := template];
      nextStatId := nextStatId + 1;
      hp := template.hp;
    }

    /** `force_delete_character_by_nickname`. */
    method ForceDeleteCharacterByNickname(nickname: string)
      requires Valid()
      modifies this`characters
      ensures Valid()
      ensures characters == PurgeNickname(old(characters), nickname)
    {
      PurgeKeepsKeys(characters, nickname);
      characters := PurgeNickname(characters, nickname);
    }

    /** `POST /character/create`. The stat row and the reclaim are committed
        before the insert, so they stay when the insert fails. */
    method CreateCharacter(req: CreateRequest) returns (status: Status, id: Option<int>)
      requires Valid()
      modifies this`stats, this`nextStatId, this`characters, this`nextCharId
      ensures Valid()
      ensures old(session).None? ==> status == Unauthorized && id.None? && unchanged(this)
      ensures old(session).Some? && !CreateArgsPresent(req) ==>
        status == BadRequest && id.None? && unchanged(this)
      ensures (old(session).Some? && CreateArgsPresent(req) && req.classId.value !in templates) ==>
        status == InternalError && id.None? && unchanged(this)
      ensures (old(session).Some? && CreateArgsPresent(req) && req.classId.value in templates) ==>
        var template := templates[req.classId.value];
        var purged := PurgeNickname(old(characters), req.nickname.value);
        && stats == old(stats)[old(nextStatId) := template]
        && nextStatId == old(nextStatId) + 1
        && (NicknameTaken(purged, req.nickname.value) ==>
              status == InternalError && id.None? && characters == purged && nextCharId == old(nextCharId))
        && (!NicknameTaken(purged, req.nickname.value) ==>
              && status == Created && id == Some(old(nextCharId))
              && characters == purged + [NewCharacter(old(nextCharId), old(session).value, req, old(nextStatId), template)]
              && nextCharId == old(nextCharId) + 1)
    {
      if session.None? {
        return Unauthorized, None;
      }
      if !CreateArgsPresent(req) {
        return BadRequest, None;
      }
      var classId, nickname := req.classId.value, req.nickname.value;
      var statId, hp := CreateStatWithClassId(classId);
      if statId.None? {
        return InternalError, None;
      }
      ForceDeleteCharacterByNickname(nickname);
      if NicknameTaken(characters, nickname) {
        // the UNIQUE key rejects the insert
        return InternalError, None;
      }
      var row := NewCharacter(nextCharId, session.value, req, statId.value, templates[classId]);
      AppendKeepsKeys(characters, row);
      characters := characters + [row];
      id := Some(nextCharId);
      nextCharId := nextCharId + 1;
      status := Created;
    }

    /** `DELETE /character/<char_id>`: a soft delete of the session user's row. */
    method DeleteCharacter(charId: int) returns (status: Status)
      requires Valid()
      modifies this`characters
      ensures Valid()
      ensures old(session).None? ==> status == Unauthorized && characters == old(characters)
      ensures old(session).Some? ==>
        status == Created && characters == SoftDelete(old(characters), charId, old(session).value)
    {
      if session.None? {
        return Unauthorized;
      }
      characters := SoftDelete(characters, charId, session.value);
      status := Created;
    }

    /** `PATCH /character/update`. */
    method UpdateCharacterData(req: UpdateRequest) returns (status: Status)
      requires Valid()
      modifies this`characters
      ensures Valid()
      ensures old(session).None? ==> status == Unauthorized && characters == old(characters)
      ensures old(session).Some? && !UpdateArgsPresent(req) ==>
        status == BadRequest && characters == old(characters)
      ensures old(session).Some? && UpdateArgsPresent(req) ==>
        status == OK &&
        characters == UpdateProgress(old(characters), req.charId.value, old(session).value,
                                     Progress(req.level.value, req.coin.value, req.exp.value), req.hp.value)
    {
      if session.None? {
        return Unauthorized;
      }
      if !UpdateArgsPresent(req) {
        return BadRequest;
      }
      characters := UpdateProgress(characters, req.charId.value, session.value,
                                   Progress(req.level.value, req.coin.value, req.exp.value), req.hp.value);
      status := OK;
    }

    // -------------------------------------------------------------------
    // Inventory

    /** `add_already_item`. */
    method AddAlreadyItem(charId: int, itemId: int, count: int)
      modifies this`inventory
      ensures inventory == SetCount(old(inventory), charId, itemId, count)
    {
      inventory := SetCount(inventory, charId, itemId, count);
    }

    /** `POST /buy`. */
    method InsertInventory(req: BuyRequest) returns (status: Status)
      modifies this`inventory
      ensures old(session).None? ==> status == Unauthorized && inventory == old(inventory)
      ensures old(session).Some? && (req.charId.None? || req.itemId.None?) ==>
        status == BadRequest && inventory == old(inventory)
      ensures old(session).Some? && req.charId.Some? && req.itemId.Some? ==>
        status == Created && inventory == Buy(old(inventory), req.charId.value, req.itemId.value, req.count)
    {
      if session.None? {
        return Unauthorized;
      }
      if req.charId.None? || req.itemId.None? {
        return BadRequest;
      }
      var charId, itemId := req.charId.value, req.itemId.value;
      var already := AlreadyItem(inventory, charId, itemId);
      if already.Some? && already.value.count.Some? && already.value.count.value > 0 {
        AddAlreadyItem(charId, itemId, already.value.count.value + 1);
        return Created;
      }
      inventory := inventory + [InvRow(charId, itemId, req.count)];
      status := Created;
    }
  }

  /** A soft-deleted character's nickname can be taken again: when every
      row holding a nickname is the session user's character `charId`,
      deleting that character and then creating one with the nickname
      succeeds, and the new live row holds it. */
  method ReuseNicknameScenario(s: Server, charId: int, req: CreateRequest)
    returns (deleteStatus: Status, createStatus: Status)
    requires s.Valid() && s.session.Some?
    requires CreateArgsPresent(req) && req.classId.value in s.templates
    requires forall k :: 0 <= k < |s.characters| && s.characters[k].nickname == req.nickname.value ==>
      OwnedBy(s.characters[k], charId, s.session.value)
    modifies s
    ensures deleteStatus == Created && createStatus == Created
    ensures exists k :: 0 <= k < |s.characters| && s.characters[k].nickname == req.nickname.value && !s.characters[k].deleted
  {
    deleteStatus := s.DeleteCharacter(charId);
    ghost var afterDelete := s.characters;
    ReclaimFreesNickname(afterDelete, req.nickname.value);
    var id;
    createStatus, id := s.CreateCharacter(req);
    assert s.characters[|s.characters| - 1].nickname == req.nickname.value;
  }
}
