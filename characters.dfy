/** The character table and the meaning of the statements the character
    handlers run on it: the soft delete, the hard delete that reclaims a
    nickname, the progress update, and the listing and detail queries. */
module Characters {
  import opened Common
  import opened Sessions
  import opened ClassTree

  /** Level, coin and experience as saved by `update_character_data`. */
  datatype Progress = Progress(level: int, coin: int, exp: int)

  /** A stat row. */
  datatype Stat = Stat(hp: int, atk: int, defense: int, speed: int, atkRange: int, atkSpeed: int)

  /** A row of `character_list`. `deleted` is `deleted_at IS NOT NULL`;
      `progress` is None while the level, coin and exp columns still hold
      the column defaults of a fresh row. */
  datatype Character = Character(
    charId: int, userId: UserId, classId: ClassId, nickname: string, gender: Option<string>,
    statId: int, hp: int, progress: Option<Progress>, deleted: bool)

  /** A row of the listing: the character joined with its class. */
  datatype Listed = Listed(character: Character, className: string, classColor: string)

  /** A row of the detail query: the character joined with its stat row. */
  datatype Detailed = Detailed(character: Character, stat: Stat)

  /** `WHERE char_id = %s AND user_id = %s`. */
  predicate OwnedBy(c: Character, charId: int, user: UserId) {
    c.charId == charId && c.userId == user
  }

  /** `SET deleted_at = NOW() WHERE char_id = %s AND user_id = %s`. */
  function SoftDelete(chars: seq<Character>, charId: int, user: UserId): (r: seq<Character>)
    ensures |r| == |chars|
    ensures forall k :: 0 <= k < |chars| ==>
      r[k] == if OwnedBy(chars[k], charId, user) then chars[k].(deleted := true) else chars[k]
  {
    if chars == [] then []
    else
      [if OwnedBy(chars[0], charId, user) then chars[0].(deleted := true) else chars[0]] +
      SoftDelete(chars[1..], charId, user)
  }

  /** `DELETE WHERE nickname = %s AND deleted_at IS NOT NULL`: of any owner. */
  function PurgeNickname(chars: seq<Character>, nickname: string): (r: seq<Character>)
    ensures forall c :: c in r <==> c in chars && !(c.nickname == nickname && c.deleted)
    ensures |r| <= |chars|
  {
    if chars == [] then []
    else
      (if chars[0].nickname == nickname && chars[0].deleted then [] else [chars[0]]) +
      PurgeNickname(chars[1..], nickname)
  }

  /** `SET level, coin, exp, hp WHERE char_id = %s AND user_id = %s`; the
      WHERE clause does not exclude soft-deleted rows. */
  function UpdateProgress(chars: seq<Character>, charId: int, user: UserId, p: Progress, hp: int): (r: seq<Character>)
    ensures |r| == |chars|
    ensures forall k :: 0 <= k < |chars| ==>
      r[k] == if OwnedBy(chars[k], charId, user) then chars[k].(progress := Some(p), hp := hp) else chars[k]
  {
    if chars == [] then []
    else
      [if OwnedBy(chars[0], charId, user) then chars[0].(progress := Some(p), hp := hp) else chars[0]] +
      UpdateProgress(chars[1..], charId, user, p, hp)
  }

  /** The class row of the JOIN: the first with that id. */
  function FindClass(classes: seq<ClassRow>, id: ClassId): (r: Option<ClassRow>)
    ensures r.None? <==> forall k :: 0 <= k < |classes| ==> classes[k].classId != id
    ensures r.Some? ==> r.value in classes && r.value.classId == id
  {
    if classes == [] then None
    else if classes[0].classId == id then Some(classes[0])
    else FindClass(classes[1..], id)
  }

  /** `WHERE c.user_id = %s AND c.deleted_at IS NULL`, inner-joined on the class. */
  predicate ListedFor(c: Character, classes: seq<ClassRow>, user: UserId) {
    c.userId == user && !c.deleted && FindClass(classes, c.classId).Some?
  }

  /** `get_all_characters`: the session user's live characters, in table order. */
  function Listing(chars: seq<Character>, classes: seq<ClassRow>, user: UserId): (r: seq<Listed>)
    ensures forall e :: e in r ==>
      && e.character in chars
      && ListedFor(e.character, classes, user)
      && e.className == FindClass(classes, e.character.classId).value.name
      && e.classColor == FindClass(classes, e.character.classId).value.color
    ensures forall c :: c in chars && ListedFor(c, classes, user) ==> exists e :: e in r && e.character == c
  {
    if chars == [] then []
    else
      var c := chars[0];
      var rest := Listing(chars[1..], classes, user);
      if ListedFor(c, classes, user) then
        var cl := FindClass(classes, c.classId).value;
        var e := Listed(c, cl.name, cl.color);
        assert e in [e] + rest;
        [e] + rest
      else
        rest
  }

  /** `WHERE c.char_id = %s AND c.user_id = %s AND c.deleted_at IS NULL`,
      inner-joined on the stat row; the first such row. */
  predicate DetailMatch(c: Character, stats: map<int, Stat>, charId: int, user: UserId) {
    OwnedBy(c, charId, user) && !c.deleted && c.statId in stats
  }

  /** `get_character`: None is the 404 answer. */
  function Detail(chars: seq<Character>, stats: map<int, Stat>, charId: int, user: UserId): (r: Option<Detailed>)
    ensures r.None? <==> forall k :: 0 <= k < |chars| ==> !DetailMatch(chars[k], stats, charId, user)
    ensures r.Some? ==>
      && r.value.character in chars
      && DetailMatch(r.value.character, stats, charId, user)
      && r.value.stat == stats[r.value.character.statId]
  {
    if chars == [] then None
    else if DetailMatch(chars[0], stats, charId, user) then Some(Detailed(chars[0], stats[chars[0].statId]))
    else
      var r := Detail(chars[1..], stats, charId, user);
      assert forall k :: 1 <= k < |chars| ==> chars[k] == chars[1..][k - 1];
      r
  }

  // ---------------------------------------------------------------------
  // Properties.

  /** A soft-deleted character disappears from its owner's listing and
      detail view. */
  lemma SoftDeletedHidden(chars: seq<Character>, classes: seq<ClassRow>, stats: map<int, Stat>, charId: int, user: UserId)
    ensures forall e :: e in Listing(SoftDelete(chars, charId, user), classes, user) ==> e.character.charId != charId
    ensures Detail(SoftDelete(chars, charId, user), stats, charId, user).None?
  {
    var after := SoftDelete(chars, charId, user);
    forall e | e in Listing(after, classes, user) ensures e.character.charId != charId {
      var k :| 0 <= k < |after| && after[k] == e.character;
    }
  }

  /** Nobody else's characters are touched by a soft delete: every other
      user's listing is unchanged. */
  lemma {:induction false} SoftDeleteKeepsOthers(chars: seq<Character>, classes: seq<ClassRow>, charId: int, user: UserId, other: UserId)
    requires other != user
    ensures Listing(SoftDelete(chars, charId, user), classes, other) == Listing(chars, classes, other)
  {
    if chars != [] {
      SoftDeleteKeepsOthers(chars[1..], classes, charId, user, other);
      assert SoftDelete(chars, charId, user)[1..] == SoftDelete(chars[1..], charId, user);
    }
  }

  /** The reclaim keeps the surviving rows in table order: purging a split
      table purges each part. */
  lemma {:induction false} PurgeAppend(a: seq<Character>, b: seq<Character>, nickname: string)
    ensures PurgeNickname(a + b, nickname) == PurgeNickname(a, nickname) + PurgeNickname(b, nickname)
  {
    if a != [] {
      assert (a + b)[1..] == a[1..] + b;
      PurgeAppend(a[1..], b, nickname);
    } else {
      assert a + b == b;
    }
  }

  /** Without a soft-deleted row of that nickname the reclaim changes nothing:
      live characters are never hard-deleted. */
  lemma {:induction false} PurgeSparesLive(chars: seq<Character>, nickname: string)
    requires forall k :: 0 <= k < |chars| && chars[k].nickname == nickname ==> !chars[k].deleted
    ensures PurgeNickname(chars, nickname) == chars
  {
    if chars != [] {
      PurgeSparesLive(chars[1..], nickname);
    }
  }

  /** Some row, live or soft-deleted, has the nickname (it is unique). */
  predicate NicknameTaken(chars: seq<Character>, nickname: string) {
    exists k :: 0 <= k < |chars| && chars[k].nickname == nickname
  }

  /** After the reclaim the nickname is taken exactly when a live character
      has it: a name held only by soft-deleted characters is free again. */
  lemma ReclaimFreesNickname(chars: seq<Character>, nickname: string)
    ensures NicknameTaken(PurgeNickname(chars, nickname), nickname) <==>
      exists k :: 0 <= k < |chars| && chars[k].nickname == nickname && !chars[k].deleted
  {
    var r := PurgeNickname(chars, nickname);
    if NicknameTaken(r, nickname) {
      var k :| 0 <= k < |r| && r[k].nickname == nickname;
      assert r[k] in r;
      var j :| 0 <= j < |chars| && chars[j] == r[k];
    }
    if k :| 0 <= k < |chars| && chars[k].nickname == nickname && !chars[k].deleted {
      assert chars[k] in chars;
      assert chars[k] in r;
      var j :| 0 <= j < |r| && r[j] == chars[k];
    }
  }
}
