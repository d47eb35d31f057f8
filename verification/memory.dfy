/** The message store (`SQLiteMemory`): adding a turn, merging into a turn,
    reading all turns back, rolling back by id, and seeding a store on open. */
module Memory {
  import opened Wrappers
  import opened Json
  import opened Multimodal
  import opened Table

  /** The collaborators the store calls but does not define: the image
      encoder, `json.dumps` and `json.loads` (None when the text is not JSON). */
  datatype Env = Env(encodeImage: string -> string, dumps: Json -> string, loads: string -> Option<Json>)

  /** Parsing the serialisation of an encoded block list gives it back. This
      is what `json.loads` promises of `json.dumps` output; it is taken as a
      hypothesis wherever it is needed, never assumed. */
  ghost predicate DumpsRoundTrips(env: Env) {
    forall bs: seq<Block> :: env.loads(env.dumps(BlocksToJson(bs))) == Some(BlocksToJson(bs))
  }

  datatype Error =
    | RoleNotAllowed           // add_message's assert on the role
    | MessageTypeWrong         // a content dict with neither 'image' nor 'text'
    | InvalidIdOrRoleMismatch  // targeted append_message
    | MessageFormatWrong       // seed validation

  /** The table after a call, with what the call returned or raised. A call
      that raises still leaves a table behind: the one it had already
      committed to. */
  datatype Step<T> = Step(store: Store, result: Result<T, Error>)

  /** What a caller passes as `content` to add_message: a string, or a list. */
  datatype MessageContent = Plain(text: string) | Items(items: seq<Item>)

  predicate AddableRole(role: string) {
    role == "user" || role == "system" || role == "assistant"
  }

  /** Content add_message can store: a string, or a list of well-shaped items. */
  predicate Encodable(c: MessageContent) {
    c.Plain? || forall i :: 0 <= i < |c.items| ==> WellShaped(c.items[i])
  }

  /** The text column add_message writes: a string as is, a list as the JSON
      serialisation of its blocks. */
  function StoredText(env: Env, c: MessageContent): string
    requires Encodable(c)
  {
    match c
    case Plain(t) => t
    case Items(items) => env.dumps(BlocksToJson(EncodeItems(env.encodeImage, items).value))
  }

  /** add_message. The role is checked first, then the content is encoded;
      either failure leaves the table as it was. On success exactly one row
      is appended, with a fresh id, and no existing row changes. */
  function AddMessage(env: Env, s: Store, role: string, content: MessageContent): (r: Step<nat>)
    ensures r.result.Success? <==> AddableRole(role) && Encodable(content)
    ensures !AddableRole(role) ==> r.result == Failure(RoleNotAllowed)
    ensures AddableRole(role) && !Encodable(content) ==> r.result == Failure(MessageTypeWrong)
    ensures r.result.Failure? ==> r.store == s
    ensures r.result.Success? ==> r.store.rows == s.rows + [Row(r.result.value, role, StoredText(env, content))]
    ensures r.result.Success? ==> s.nextId <= r.result.value < r.store.nextId
    ensures Valid(s) && r.result.Success? ==> forall i :: 0 <= i < |s.rows| ==> s.rows[i].id < r.result.value
    ensures Valid(s) ==> Valid(r.store)
  {
    if !AddableRole(role) then Step(s, Failure(RoleNotAllowed))
    else
      match content
      case Plain(t) =>
        var (s', id) := Insert(s, role, t);
        Step(s', Success(id))
      case Items(items) =>
        match EncodeItems(env.encodeImage, items)
        case None => Step(s, Failure(MessageTypeWrong))
        case Some(blocks) =>
          var (s', id) := Insert(s, role, env.dumps(BlocksToJson(blocks)));
          Step(s', Success(id))
  }

  /** Targeted append_message: merge into the row with id `id` (its role must
      match) and delete every later row. Returns the cursor's `lastrowid`,
      which no statement of this path sets. */
  function AppendToId(s: Store, role: string, content: string, id: int): (r: Step<Option<nat>>)
    ensures Valid(s) ==>
      (r.result.Failure? <==> forall i :: 0 <= i < |s.rows| && s.rows[i].id == id ==> s.rows[i].role != role)
    ensures r.result.Failure? ==> r.store == s && r.result.error == InvalidIdOrRoleMismatch
    ensures r.result.Success? ==> r.result.value.None? && r.store.nextId == s.nextId
    ensures r.result.Success? ==> forall x :: x in r.store.rows ==> x.id <= id
    ensures Valid(s) ==> Valid(r.store)
  {
    match FindId(s.rows, id)
    case None => Step(s, Failure(InvalidIdOrRoleMismatch))
    case Some(i) =>
      if s.rows[i].role != role then Step(s, Failure(InvalidIdOrRoleMismatch))
      else
        var merged := s.rows[i].content + "\n" + content;
        var updated := Store(SetContent(s.rows, id, merged), s.nextId);
        SetContentValid(s, id, merged);
        DeleteAboveValid(updated, id);
        DeleteAboveMembers(updated.rows, id);
        Step(Store(DeleteAbove(updated.rows, id), s.nextId), Success(None))
  }

  /** Untargeted append_message: merge into the latest row with this role, or
      insert the raw content as a new row when there is none. Only the insert
      sets `lastrowid`. Never raises. */
  function AppendToLatest(s: Store, role: string, content: string): (r: Step<Option<nat>>)
    ensures r.result.Success?
    ensures r.result.value.Some? <==> forall j :: 0 <= j < |s.rows| ==> s.rows[j].role != role
    ensures r.result.value.None? ==> |r.store.rows| == |s.rows| && r.store.nextId == s.nextId
    ensures r.result.value.Some? ==>
      && r.store.rows == s.rows + [Row(r.result.value.value, role, content)]
      && s.nextId <= r.result.value.value < r.store.nextId
    ensures Valid(s) ==> Valid(r.store)
  {
    match LatestOfRole(s.rows, role)
    case Some(i) =>
      var merged := s.rows[i].content + "\n" + content;
      Step(Store(SetContent(s.rows, s.rows[i].id, merged), s.nextId), Success(None))
    case None =>
      var (s', id) := Insert(s, role, content);
      Step(s', Success(Some(id)))
  }

  /** append_message. `lastrowid` names a row exactly when the call inserted
      one: untargeted, with no row of that role. Only the targeted mode can
      raise, and a raise leaves the table unchanged. */
  function AppendMessage(s: Store, role: string, content: string, messageId: Option<int>): (r: Step<Option<nat>>)
    ensures messageId.None? ==> r.result.Success?
    ensures Valid(s) && messageId.Some? ==>
      (r.result.Failure? <==>
        forall i :: 0 <= i < |s.rows| && s.rows[i].id == messageId.value ==> s.rows[i].role != role)
    ensures r.result.Failure? ==> r.store == s && r.result.error == InvalidIdOrRoleMismatch
    ensures (r.result.Success? && r.result.value.Some?) <==>
      (messageId.None? && forall j :: 0 <= j < |s.rows| ==> s.rows[j].role != role)
    ensures r.result.Success? && r.result.value.Some? ==>
      && r.store.rows == s.rows + [Row(r.result.value.value, role, content)]
      && s.nextId <= r.result.value.value < r.store.nextId
    ensures r.store.nextId >= s.nextId
    ensures Valid(s) ==> Valid(r.store)
  {
    match messageId
    case Some(id) => AppendToId(s, role, content, id)
    case None => AppendToLatest(s, role, content)
  }

  /** recover: `DELETE ... WHERE id > index`. Exactly the rows with id at most
      `index` remain, in order; the id counter is untouched. */
  function Recover(s: Store, index: int): (r: Store)
    ensures r.nextId == s.nextId
    ensures forall x :: x in r.rows <==> x in s.rows && x.id <= index
    ensures |r.rows| <= |s.rows|
    ensures Valid(s) ==> Valid(r) && r.rows == s.rows[..|r.rows|]
  {
    DeleteAboveMembers(s.rows, index);
    Store(DeleteAbove(s.rows, index), s.nextId)
  }

  /** A content value as get_messages returns it: the parsed JSON when the
      stored text parses, otherwise the stored text itself. */
  datatype Content = Text(text: string) | Value(json: Json)

  datatype Message = Message(role: string, content: Content)

  function Decode(env: Env, stored: string): Content {
    match env.loads(stored)
    case Some(j) => Value(j)
    case None => Text(stored)
  }

  /** get_messages: one entry per row in ascending id order, role kept,
      content parsed when it parses and raw otherwise. */
  function GetMessages(env: Env, s: Store): (r: seq<Message>)
    ensures |r| == |s.rows|
    ensures forall i :: 0 <= i < |r| ==> r[i].role == s.rows[i].role
    ensures forall i :: 0 <= i < |r| ==>
      (env.loads(s.rows[i].content).Some? ==> r[i].content == Value(env.loads(s.rows[i].content).value))
    ensures forall i :: 0 <= i < |r| ==>
      (env.loads(s.rows[i].content).None? ==> r[i].content == Text(s.rows[i].content))
  {
    seq(|s.rows|, i requires 0 <= i < |s.rows| => Message(s.rows[i].role, Decode(env, s.rows[i].content)))
  }

  /** One seed as the constructor receives it: maybe not a dict; maybe
      missing its 'role' or 'content' key. */
  datatype Seed = NotADict | SeedDict(role: Option<string>, content: Option<MessageContent>)

  /** _validate_messages' check of one seed: shape and role only (and the
      role may not be 'system'); the content items are not inspected. */
  predicate SeedOk(seed: Seed) {
    && seed.SeedDict?
    && seed.role.Some?
    && seed.content.Some?
    && (seed.role.value == "user" || seed.role.value == "assistant")
  }

  predicate AllSeedsOk(seeds: seq<Seed>) {
    forall i :: 0 <= i < |seeds| ==> SeedOk(seeds[i])
  }

  function SeedMessages(seeds: seq<Seed>): (ms: seq<(string, MessageContent)>)
    requires AllSeedsOk(seeds)
    ensures |ms| == |seeds|
    ensures forall i :: 0 <= i < |seeds| ==> ms[i] == (seeds[i].role.value, seeds[i].content.value)
  {
    seq(|seeds|, i requires 0 <= i < |seeds| => (seeds[i].role.value, seeds[i].content.value))
  }

  predicate Addable(m: (string, MessageContent)) {
    AddableRole(m.0) && Encodable(m.1)
  }

  /** The position of the first message add_message would reject, or the
      length when it would take them all. */
  function FirstRejected(ms: seq<(string, MessageContent)>): (n: nat)
    ensures n <= |ms|
    ensures forall i :: 0 <= i < n ==> Addable(ms[i])
    ensures n < |ms| ==> !Addable(ms[n])
  {
    if ms == [] || !Addable(ms[0]) then 0 else 1 + FirstRejected(ms[1..])
  }

  /** add_message called on each message in turn, stopping at the first that
      raises. Each call commits on its own, so the messages before the
      failing one stay in the table. */
  function AddAll(env: Env, s: Store, ms: seq<(string, MessageContent)>): (r: Step<()>)
    ensures |r.store.rows| == |s.rows| + FirstRejected(ms)
    ensures r.store.rows[..|s.rows|] == s.rows
    ensures r.result.Success? <==> FirstRejected(ms) == |ms|
    ensures r.result.Failure? ==>
      r.result.error == (if AddableRole(ms[FirstRejected(ms)].0) then MessageTypeWrong else RoleNotAllowed)
    ensures r.store.nextId >= s.nextId
    ensures forall i :: |s.rows| <= i < |r.store.rows| ==> s.nextId <= r.store.rows[i].id < r.store.nextId
    ensures Valid(s) ==> Valid(r.store)
    decreases |ms|
  {
    if ms == [] then Step(s, Success(()))
    else
      var first := AddMessage(env, s, ms[0].0, ms[0].1);
      if first.result.Failure? then Step(s, Failure(first.result.error))
      else
        var rest := AddAll(env, first.store, ms[1..]);
        assert first.store.rows[..|s.rows|] == s.rows;
        assert rest.store.rows[..|s.rows|] == first.store.rows[..|s.rows|];
        rest
  }

  /** The rows AddAll appends are the accepted messages, in order, each
      with its role and the text add_message stores for it. */
  lemma {:induction false} AddAllContents(env: Env, s: Store, ms: seq<(string, MessageContent)>, i: nat)
    requires i < FirstRejected(ms)
    ensures |s.rows| + i < |AddAll(env, s, ms).store.rows|
    ensures AddAll(env, s, ms).store.rows[|s.rows| + i].role == ms[i].0
    ensures AddAll(env, s, ms).store.rows[|s.rows| + i].content == StoredText(env, ms[i].1)
    decreases |ms|
  {
    var first := AddMessage(env, s, ms[0].0, ms[0].1);
    assert first.result.Success?;
    var rest := AddAll(env, first.store, ms[1..]);
    assert AddAll(env, s, ms) == rest;
    if i == 0 {
      assert rest.store.rows[..|first.store.rows|] == first.store.rows;
      assert first.store.rows[|s.rows|] == rest.store.rows[|s.rows|];
    } else {
      assert FirstRejected(ms) == 1 + FirstRejected(ms[1..]);
      AddAllContents(env, first.store, ms[1..], i - 1);
      assert ms[1..][i - 1] == ms[i];
    }
  }

  /** The constructor: `persisted` is what the database file already holds
      (loaded without validation). When seeds are given, all are validated
      before any is inserted; then each is added in turn. */
  function Open(env: Env, persisted: Store, seeds: seq<Seed>): (r: Step<()>)
    ensures |seeds| == 0 ==> r == Step(persisted, Success(()))
    ensures !AllSeedsOk(seeds) ==> r == Step(persisted, Failure(MessageFormatWrong))
    ensures AllSeedsOk(seeds) ==>
      && |r.store.rows| == |persisted.rows| + FirstRejected(SeedMessages(seeds))
      && r.store.rows[..|persisted.rows|] == persisted.rows
      && (r.result.Success? <==> FirstRejected(SeedMessages(seeds)) == |seeds|)
      && (r.result.Failure? ==> r.result.error == MessageTypeWrong)
    ensures AllSeedsOk(seeds) ==>
      forall i :: 0 <= i < FirstRejected(SeedMessages(seeds)) ==>
        && r.store.rows[|persisted.rows| + i].role == seeds[i].role.value
        && r.store.rows[|persisted.rows| + i].content == StoredText(env, seeds[i].content.value)
    ensures r.store.nextId >= persisted.nextId
    ensures forall i :: |persisted.rows| <= i < |r.store.rows| ==>
      persisted.nextId <= r.store.rows[i].id < r.store.nextId
    ensures Valid(persisted) ==> Valid(r.store)
  {
    if |seeds| == 0 then Step(persisted, Success(()))
    else if !AllSeedsOk(seeds) then Step(persisted, Failure(MessageFormatWrong))
    else
      var ms := SeedMessages(seeds);
      assert forall i :: 0 <= i < FirstRejected(ms) ==>
        && AddAll(env, persisted, ms).store.rows[|persisted.rows| + i].role == ms[i].0
        && AddAll(env, persisted, ms).store.rows[|persisted.rows| + i].content == StoredText(env, ms[i].1)
      by {
        forall i | 0 <= i < FirstRejected(ms) {
          AddAllContents(env, persisted, ms, i);
        }
      }
      AddAll(env, persisted, ms)
  }
}
