/** Handling of an incoming chat message: the length gate, saving the user
    turn, retrieving relevant history, assembling the prompt under the
    4000-character history budget, asking the completion model and saving
    its reply. */
module Context {
  import opened Optional
  import opened Sequences
  import opened Memory
  import opened Locale
  import MemoryProperties

  /** The history budget: admitted history stays strictly below this many characters. */
  const MaxChars: nat := 4000
  /** Accepted message lengths, inclusive. */
  const MinLength: nat := 2
  const MaxLength: nat := 1500
  /** Number of hits asked for when retrieving history for a message. */
  const HistoryTopK: nat := 6
  /** The reply used when the completion call fails; no language table has an "error" entry. */
  const FallbackReply: string := "Sorry, a technical error occurred."

  /** The length gate: a text message of 2 to 1500 characters. */
  predicate AcceptableText(text: Option<string>) {
    text.Some? && MinLength <= |text.value| <= MaxLength
  }

  function TotalLength(ms: seq<Message>): nat
    decreases |ms|
  {
    if ms == [] then 0 else TotalLength(ms[..|ms| - 1]) + |ms[|ms| - 1].content|
  }

  // ---------------------------------------------------------------- admission

  /** The history entries admitted to the prompt. Each entry in turn is
      admitted when the length of the entries admitted before it plus its own
      length is strictly below `MaxChars`; an entry that does not fit is
      skipped and the following entries are still tried. */
  function Admit(history: seq<Message>): (kept: seq<Message>)
    ensures TotalLength(kept) < MaxChars
    ensures Subseq(kept, history)
    ensures |kept| <= |history|
    decreases |history|
  {
    if history == [] then []
    else
      var prev := Admit(history[..|history| - 1]);
      var h := history[|history| - 1];
      if TotalLength(prev) + |h.content| < MaxChars then
        assert (prev + [h])[..|prev|] == prev;
        prev + [h]
      else prev
  }

  /** The alternative rule that stops at the first entry that does not fit. */
  function AdmitUntilOverflow(history: seq<Message>): (kept: seq<Message>)
    ensures kept <= history
    ensures TotalLength(kept) < MaxChars
    decreases |history|
  {
    if history == [] then []
    else
      var prev := AdmitUntilOverflow(history[..|history| - 1]);
      var h := history[|history| - 1];
      if |prev| == |history| - 1 && TotalLength(prev) + |h.content| < MaxChars then
        assert prev == history[..|history| - 1];
        assert (prev + [h])[..|prev|] == prev;
        prev + [h]
      else prev
  }

  /** Everything the stopping rule admits is admitted too, as a leading part:
      skipping instead of stopping only ever adds entries. */
  lemma {:induction false} AdmitExtendsUntilOverflow(history: seq<Message>)
    ensures AdmitUntilOverflow(history) <= Admit(history)
    decreases |history|
  {
    if history != [] {
      var n := |history|;
      assert history[..n] == history;
      var prefix := history[..n - 1];
      AdmitExtendsUntilOverflow(prefix);
      AdmitStep(history, n - 1);
      UntilOverflowStep(history, n - 1);
      ExtendsStep(AdmitUntilOverflow(prefix), Admit(prefix), history[n - 1], n - 1);
    }
  }

  /** The inductive step of `AdmitExtendsUntilOverflow`, on the two rules'
      results for the entries before `h`. */
  lemma ExtendsStep(stop: seq<Message>, admit: seq<Message>, h: Message, n: nat)
    requires stop <= admit && |admit| <= n
    ensures (if |stop| == n && TotalLength(stop) + |h.content| < MaxChars then stop + [h] else stop)
         <= (if TotalLength(admit) + |h.content| < MaxChars then admit + [h] else admit)
  {
    if |stop| == n {
      assert stop == admit by {
        assert admit[..|stop|] == stop;
      }
    } else {
      PrefixOfExtension(stop, admit, h);
    }
  }

  lemma PrefixOfExtension(p: seq<Message>, s: seq<Message>, h: Message)
    requires p <= s
    ensures p <= s + [h]
  {
    assert (s + [h])[..|p|] == s[..|p|];
  }

  /** The admission rule on entries of 4000, 3000, 1000 and 999 characters:
      4000 does not fit (the test is strict), 3000 fits, 1000 would reach
      exactly 4000 and is skipped, and 999 is still admitted after it. The
      stopping rule would admit nothing. */
  lemma AdmitSkipsAndContinues(history: seq<Message>)
    requires |history| == 4
    requires |history[0].content| == 4000 && |history[1].content| == 3000
    requires |history[2].content| == 1000 && |history[3].content| == 999
    ensures Admit(history) == [history[1], history[3]]
    ensures AdmitUntilOverflow(history) == []
  {
    SkipExampleAdmit(history);
    SkipExampleStops(history);
  }

  lemma SkipExampleAdmit(history: seq<Message>)
    requires |history| == 4
    requires |history[0].content| == 4000 && |history[1].content| == 3000
    requires |history[2].content| == 1000 && |history[3].content| == 999
    ensures Admit(history) == [history[1], history[3]]
  {
    var h1, h3 := history[1], history[3];
    assert history[..0] == [];
    AdmitStep(history, 0);
    assert Admit(history[..1]) == [];
    AdmitStep(history, 1);
    assert [] + [h1] == [h1];
    assert Admit(history[..2]) == [h1] && TotalLength([h1]) == 3000;
    AdmitStep(history, 2);
    assert Admit(history[..3]) == [h1];
    AdmitStep(history, 3);
    assert [h1] + [h3] == [h1, h3];
    assert Admit(history[..4]) == [h1, h3];
    assert history[..4] == history;
  }

  lemma SkipExampleStops(history: seq<Message>)
    requires |history| == 4
    requires |history[0].content| == 4000
    ensures AdmitUntilOverflow(history) == []
  {
    assert history[..0] == [];
    UntilOverflowStep(history, 0);
    UntilOverflowStep(history, 1);
    UntilOverflowStep(history, 2);
    UntilOverflowStep(history, 3);
    assert history[..4] == history;
  }

  // ---------------------------------------------------------------- prompt

  /** The bot's budget loop: walks the history once, keeping a running
      total of the admitted characters. */
  method AdmitHistory(history: seq<Message>) returns (kept: seq<Message>)
    ensures kept == Admit(history)
    ensures TotalLength(kept) < MaxChars
    ensures Subseq(kept, history)
  {
    kept := [];
    var total := 0;
    var i := 0;
    while i < |history|
      invariant 0 <= i <= |history|
      invariant kept == Admit(history[..i])
      invariant total == TotalLength(kept)
    {
      var h := history[i];
      AdmitStep(history, i);
      if total + |h.content| < MaxChars {
        kept := kept + [h];
        total := total + |h.content|;
      }
      i := i + 1;
    }
    assert history[..|history|] == history;
  }

  /** The prompt for the completion model: the system prompt, the admitted
      history in retrieval order, and the user's message last whatever its
      length. */
  method AssembleMessages(systemPrompt: string, history: seq<Message>, userMsg: string)
    returns (messages: seq<Message>)
    ensures |messages| >= 2
    ensures messages[0] == Message("system", systemPrompt)
    ensures messages[|messages| - 1] == Message("user", userMsg)
    ensures messages[1..|messages| - 1] == Admit(history)
    ensures TotalLength(messages[1..|messages| - 1]) < MaxChars
    ensures Subseq(messages[1..|messages| - 1], history)
  {
    var kept := AdmitHistory(history);
    messages := [Message("system", systemPrompt)] + kept + [Message("user", userMsg)];
    assert messages[1..|messages| - 1] == kept;
  }

  /** One step of the admission rule, over a prefix of the history. */
  lemma AdmitStep(history: seq<Message>, i: nat)
    requires i < |history|
    ensures var prev := Admit(history[..i]);
            var h := history[i];
            Admit(history[..i + 1])
              == if TotalLength(prev) + |h.content| < MaxChars then prev + [h] else prev
    ensures var prev := Admit(history[..i]);
            TotalLength(prev + [history[i]]) == TotalLength(prev) + |history[i].content|
  {
    var prefix := history[..i + 1];
    assert prefix[..|prefix| - 1] == history[..i];
    var prev := Admit(history[..i]);
    assert (prev + [history[i]])[..|prev|] == prev;
  }

  /** One step of the stopping rule, over a prefix of the history. */
  lemma UntilOverflowStep(history: seq<Message>, i: nat)
    requires i < |history|
    ensures var prev := AdmitUntilOverflow(history[..i]);
            var h := history[i];
            AdmitUntilOverflow(history[..i + 1])
              == if |prev| == i && TotalLength(prev) + |h.content| < MaxChars then prev + [h] else prev
  {
    var prefix := history[..i + 1];
    assert prefix[..|prefix| - 1] == history[..i];
  }

  /** Admitting a longer prefix of the history only appends entries. */
  lemma {:induction false} AdmitGrows(history: seq<Message>, i: nat)
    requires i <= |history|
    ensures Admit(history[..i]) <= Admit(history)
    decreases |history| - i
  {
    if i < |history| {
      AdmitGrows(history, i + 1);
      AdmitStep(history, i);
      var prev := Admit(history[..i]);
      var next := Admit(history[..i + 1]);
      if TotalLength(prev) + |history[i].content| < MaxChars {
        PrefixOfExtension(prev, prev, history[i]);
      }
      PrefixTransitive(prev, next, Admit(history));
    } else {
      assert history[..i] == history;
    }
  }

  lemma PrefixTransitive(a: seq<Message>, b: seq<Message>, c: seq<Message>)
    requires a <= b && b <= c
    ensures a <= c
  {
    assert c[..|a|] == b[..|a|];
  }

  // ---------------------------------------------------------------- one turn

  /** What the collaborators answer during one turn, in call order. */
  datatype TurnCollaborators = TurnCollaborators(
    userClock: real, userEmbedding: Option<Vector>, userUpsertOk: bool,
    queryEmbedding: Option<Vector>, rank: Vector -> Option<seq<string>>,
    complete: seq<Message> -> Option<string>,
    replyClock: real, replyEmbedding: Option<Vector>, replyUpsertOk: bool)

  datatype TurnResult =
    | Rejected(index: Index)
    | Crashed(index: Index)
    | Answered(prompt: seq<Message>, reply: string, index: Index)

  /** The index after the user's turn is saved. */
  function SaveUserTurn(idx: Index, userId: string, text: string, env: TurnCollaborators): Index {
    SaveMessage(idx, userId, text, "user", env.userClock, env.userEmbedding, env.userUpsertOk)
  }

  /** Handles one incoming message. Messages outside the length gate touch
      nothing. Otherwise the user turn is saved, history retrieved (six hits),
      the prompt assembled, the completion asked (falling back to a fixed
      text) and the reply saved as an assistant turn. A session language
      missing from the table makes the language lookup raise. */
  method HandleMessage(session: Session, idx: Index, userId: string, userMsg: Option<string>, env: TurnCollaborators)
    returns (r: TurnResult)
    ensures !AcceptableText(userMsg) ==> !r.Answered? && r.index == idx
    ensures r.Answered? <==> AcceptableText(userMsg) && ValidSession(session)
    ensures r.Crashed? <==> !ValidSession(session)
    ensures r.Crashed? && AcceptableText(userMsg) ==> r.index == SaveUserTurn(idx, userId, userMsg.value, env)
    ensures r.Answered? ==>
      && 2 <= |r.prompt| <= HistoryTopK + 2
      && r.prompt[0] == Message("system", SystemPrompt(GetLang(session)))
      && r.prompt[|r.prompt| - 1] == Message("user", userMsg.value)
    ensures r.Answered? ==>
      var saved := SaveUserTurn(idx, userId, userMsg.value, env);
      var history := GetRelevantHistory(saved, userId, HistoryTopK, env.queryEmbedding, env.rank);
      && r.prompt[1..|r.prompt| - 1] == Admit(history)
      && TotalLength(r.prompt[1..|r.prompt| - 1]) < MaxChars
      && r.reply == env.complete(r.prompt).GetOr(FallbackReply)
      && r.index == SaveMessage(saved, userId, r.reply, "assistant", env.replyClock, env.replyEmbedding, env.replyUpsertOk)
  {
    var lang := GetLang(session);
    if !AcceptableText(userMsg) {
      if lang in Languages {
        return Rejected(idx);
      }
      return Crashed(idx);
    }
    var text := userMsg.value;
    var saved := SaveUserTurn(idx, userId, text, env);
    var history := GetRelevantHistory(saved, userId, HistoryTopK, env.queryEmbedding, env.rank);
    if lang !in Languages {
      return Crashed(saved);
    }
    var prompt := AssembleMessages(SystemPrompt(lang), history, text);
    var reply := env.complete(prompt).GetOr(FallbackReply);
    var answered := SaveMessage(saved, userId, reply, "assistant", env.replyClock, env.replyEmbedding, env.replyUpsertOk);
    return Answered(prompt, reply, answered);
  }

  /** The user's turn is saved before history is retrieved, so when the index
      ranks it first the live message reaches the prompt twice: as the first
      admitted history entry and again as the final message. */
  lemma PromptEchoesCurrentMessage(idx: Index, userId: string, text: string, env: TurnCollaborators)
    requires AcceptableText(Some(text))
    requires env.userUpsertOk
    requires env.rank(GetEmbedding(env.queryEmbedding)).Some?
    requires var order := env.rank(GetEmbedding(env.queryEmbedding)).value;
             order != [] && order[0] == MessageId(userId, Millis(env.userClock))
    ensures var history := GetRelevantHistory(SaveUserTurn(idx, userId, text, env), userId, HistoryTopK, env.queryEmbedding, env.rank);
            Admit(history) != [] && Admit(history)[0] == Message("user", text)
  {
    var history := GetRelevantHistory(SaveUserTurn(idx, userId, text, env), userId, HistoryTopK, env.queryEmbedding, env.rank);
    MemoryProperties.SaveThenRecall(idx, userId, text, "user", env.userClock, env.userEmbedding, HistoryTopK, env.queryEmbedding, env.rank);
    AdmitStep(history, 0);
    assert history[..0] == [];
    AdmitGrows(history, 1);
  }
}
