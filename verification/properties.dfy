/** Properties of the message store that relate a call to the table before
    it, or several calls to each other. */
module Properties {
  import opened Wrappers
  import opened Multimodal
  import opened Table
  import opened Memory

  /** Targeted append_message on a row of the same role: that row's content
      becomes old + "\n" + content with id and role kept, every row after it
      is gone, every row before it is untouched, the counter is unchanged and
      the returned `lastrowid` is not an id. */
  lemma TargetedAppendEffect(s: Store, role: string, content: string, i: nat)
    requires Valid(s)
    requires i < |s.rows| && s.rows[i].role == role
    ensures AppendMessage(s, role, content, Some(s.rows[i].id))
         == Step(Store(s.rows[..i] + [s.rows[i].(content := s.rows[i].content + "\n" + content)], s.nextId),
                 Success(None))
  {
    var id := s.rows[i].id;
    assert FindId(s.rows, id) == Some(i);
    UpdateThenCut(s.rows, i, s.rows[i].content + "\n" + content);
  }

  /** Untargeted append_message when `i` holds the latest row of that role:
      only that row's content changes (old + "\n" + content); the row count,
      every other row and the counter are unchanged. */
  lemma LatestAppendEffect(s: Store, role: string, content: string, i: nat)
    requires Valid(s)
    requires i < |s.rows| && s.rows[i].role == role
    requires forall j :: i < j < |s.rows| ==> s.rows[j].role != role
    ensures AppendMessage(s, role, content, None)
         == Step(Store(s.rows[i := s.rows[i].(content := s.rows[i].content + "\n" + content)], s.nextId),
                 Success(None))
  {
    var latest := LatestOfRole(s.rows, role);
    assert latest == Some(i);
    SetContentAt(s.rows, i, s.rows[i].content + "\n" + content);
  }

  /** recover is idempotent: after rolling back to `k`, rolling back to `k`
      or to any larger id changes nothing. */
  lemma RecoverIdempotent(s: Store, k: int, k2: int)
    requires k <= k2
    ensures Recover(Recover(s, k), k2) == Recover(s, k)
  {
    DeleteAboveIdempotent(s.rows, k, k2);
  }

  /** recover is a no-op when no row has an id above `k`; `k` need not be
      an existing id. */
  lemma RecoverNoOp(s: Store, k: int)
    requires forall i :: 0 <= i < |s.rows| ==> s.rows[i].id <= k
    ensures Recover(s, k) == s
  {
    DeleteAboveNothing(s.rows, k);
  }

  /** On an ordered table, recover(k) keeps exactly the positions whose id is
      at most k: a prefix, cut at the first id above k. */
  lemma RecoverCutsAtThreshold(s: Store, k: int, i: nat)
    requires Valid(s)
    requires i < |s.rows|
    ensures i < |Recover(s, k).rows| <==> s.rows[i].id <= k
    ensures i < |Recover(s, k).rows| ==> Recover(s, k).rows[i] == s.rows[i]
  {
  }

  /** A successful add_message extends what get_messages returns by exactly
      one entry at the end, and earlier entries read back as before. */
  lemma AddThenGetMessages(env: Env, s: Store, role: string, content: MessageContent)
    requires AddMessage(env, s, role, content).result.Success?
    ensures GetMessages(env, AddMessage(env, s, role, content).store)
         == GetMessages(env, s) + [Message(role, Decode(env, StoredText(env, content)))]
  {
    var after := GetMessages(env, AddMessage(env, s, role, content).store);
    var expected := GetMessages(env, s) + [Message(role, Decode(env, StoredText(env, content)))];
    assert |after| == |expected|;
    forall i | 0 <= i < |after|
      ensures after[i] == expected[i]
    {
    }
  }

  /** A plain string that does not parse as JSON reads back exactly as it was
      added, as the last entry. */
  lemma PlainReadBack(env: Env, s: Store, role: string, text: string)
    requires AddableRole(role)
    requires env.loads(text).None?
    ensures var ms := GetMessages(env, AddMessage(env, s, role, Plain(text)).store);
      |ms| == |s.rows| + 1 && ms[|ms| - 1] == Message(role, Text(text))
  {
  }

  /** Multimodal round trip: content added as a list reads back as parsed
      JSON whose blocks are exactly the encoded items, in order, provided
      the parser inverts the serialiser on block lists. */
  lemma MultimodalReadBack(env: Env, s: Store, role: string, items: seq<Item>)
    requires DumpsRoundTrips(env)
    requires AddMessage(env, s, role, Items(items)).result.Success?
    ensures var ms := GetMessages(env, AddMessage(env, s, role, Items(items)).store);
      && |ms| == |s.rows| + 1
      && ms[|ms| - 1].role == role
      && ms[|ms| - 1].content.Value?
      && JsonToBlocks(ms[|ms| - 1].content.json) == EncodeItems(env.encodeImage, items)
      && |JsonToBlocks(ms[|ms| - 1].content.json).value| == |items|
  {
    var blocks := EncodeItems(env.encodeImage, items).value;
    assert env.loads(env.dumps(BlocksToJson(blocks))) == Some(BlocksToJson(blocks));
    BlocksRoundTrip(blocks);
  }

  /** Seeding rejects a 'system' seed (the general add_message would accept
      it), and does so before inserting any seed. */
  lemma SystemSeedRejected(env: Env, persisted: Store, seeds: seq<Seed>, i: nat)
    requires i < |seeds| && seeds[i].SeedDict? && seeds[i].role == Some("system")
    ensures Open(env, persisted, seeds) == Step(persisted, Failure(MessageFormatWrong))
  {
  }

  /** Seed validation does not inspect content items: when seed `n` holds a
      dict with neither key, the seeds before it are already in the table,
      each with its role and stored text, when add_message raises. */
  lemma LaterBadSeedKeepsEarlierSeeds(env: Env, persisted: Store, seeds: seq<Seed>, n: nat)
    requires AllSeedsOk(seeds)
    requires n < |seeds|
    requires forall i :: 0 <= i < n ==> Encodable(seeds[i].content.value)
    requires !Encodable(seeds[n].content.value)
    ensures var r := Open(env, persisted, seeds);
      && r.result == Failure(MessageTypeWrong)
      && |r.store.rows| == |persisted.rows| + n
      && r.store.rows[..|persisted.rows|] == persisted.rows
      && forall i :: 0 <= i < n ==>
        && r.store.rows[|persisted.rows| + i].role == seeds[i].role.value
        && r.store.rows[|persisted.rows| + i].content == StoredText(env, seeds[i].content.value)
  {
    var ms := SeedMessages(seeds);
    assert !Addable(ms[n]);
    assert forall i :: 0 <= i < n ==> Addable(ms[i]);
  }
}
