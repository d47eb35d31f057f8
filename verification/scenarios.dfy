/** The store's own usage scenario, stated over the model. */
module Scenarios {
  import opened Wrappers
  import opened Table
  import opened Memory
  import opened Properties

  /** Add user "hello" and assistant "hi" to a fresh store: two entries.
      Reopening keeps both. Appending "hi" as assistant merges into the
      latest assistant turn: still two entries, the last one "hi\nhi". */
  lemma HelloHiScenario(env: Env)
    ensures var s1 := AddMessage(env, Empty(), "user", Plain("hello")).store;
      var s2 := AddMessage(env, s1, "assistant", Plain("hi")).store;
      var reopened := Open(env, s2, []).store;
      var s3 := AppendMessage(reopened, "assistant", "hi", None).store;
      && |GetMessages(env, s2)| == 2
      && reopened == s2
      && |GetMessages(env, s3)| == 2
      && s3.rows[1] == Row(2, "assistant", "hi\nhi")
      && s3.rows[0] == Row(1, "user", "hello")
      && (env.loads("hi\nhi").None? ==> GetMessages(env, s3)[1] == Message("assistant", Text("hi\nhi")))
  {
    var s1 := AddMessage(env, Empty(), "user", Plain("hello")).store;
    var s2 := AddMessage(env, s1, "assistant", Plain("hi")).store;
    assert s2.rows == [Row(1, "user", "hello"), Row(2, "assistant", "hi")];
    LatestAppendEffect(s2, "assistant", "hi", 1);
    assert "hi" + "\n" + "hi" == "hi\nhi";
  }
}
