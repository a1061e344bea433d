/** The inline-menu callbacks that touch memory or the language state:
    listing recent messages, clearing memory and choosing a language (plus
    the plain text replies of the other menu entries). Replies are opaque
    keys into the language table. */
module Menu {
  import opened Optional
  import opened Sequences
  import opened Text
  import opened Memory
  import opened Locale

  /** Number of hits asked for by the "recent" entry. */
  const RecentTopK: nat := 3
  /** Separator between listed messages (newline, em dash, space). */
  const RecentSeparator: string := "\n\U{2014} "
  const SetLangPrefix: string := "setlang_"

  datatype TextKey = Greet | Help | Abilities | RecentNone | Cleared | NothingClear | ChooseLanguage

  datatype Reply =
    | Localized(lang: string, key: TextKey)
    /** The "recent" heading of `lang` (which ends in the separator) followed by `listing`. */
    | RecentList(lang: string, listing: string)
    | LanguageNotSupported
    /** The callback raised out of its own error handler: the handler's menu
        keyboard looks up the same missing language, so nothing is sent. */
    | Raised
    /** An unrecognised callback: nothing is sent. */
    | NoReply

  /** What the collaborators answer during one callback. */
  datatype ButtonCollaborators = ButtonCollaborators(
    recentEmbedding: Option<Vector>, rank: Vector -> Option<seq<string>>,
    clearRanking: Option<seq<string>>, deleteOk: bool)

  datatype ButtonResult = ButtonResult(reply: Reply, session: Session, index: Index)

  /** The contents of the user-role messages, in order. */
  function UserContents(msgs: seq<Message>): (cs: seq<string>)
    ensures |cs| <= |msgs|
    ensures forall c | c in cs :: exists m | m in msgs :: m.role == "user" && m.content == c
    ensures forall m | m in msgs && m.role == "user" :: m.content in cs
    ensures cs == [] <==> forall m | m in msgs :: m.role != "user"
    ensures msgs != [] && msgs[0].role == "user" ==> cs[0] == msgs[0].content
    decreases |msgs|
  {
    if msgs == [] then []
    else (if msgs[0].role == "user" then [msgs[0].content] else []) + UserContents(msgs[1..])
  }

  /** The user contents of two runs of messages are those of each, in order. */
  lemma {:induction false} UserContentsAppend(a: seq<Message>, b: seq<Message>)
    ensures UserContents(a + b) == UserContents(a) + UserContents(b)
    decreases |a|
  {
    if a == [] {
      assert a + b == b;
    } else {
      var head := if a[0].role == "user" then [a[0].content] else [];
      var x, y := UserContents(a[1..]), UserContents(b);
      assert UserContents(a + b) == head + (x + y) by {
        assert (a + b)[0] == a[0];
        assert (a + b)[1..] == a[1..] + b;
        UserContentsAppend(a[1..], b);
      }
      assert UserContents(a) == head + x;
      ConcatAssociative(head, x, y);
    }
  }

  /** The reply of the "recent" entry for a retrieval result. */
  function RecentReply(lang: string, msgs: seq<Message>): (reply: Reply)
    ensures msgs == [] <==> reply == Localized(lang, RecentNone)
    ensures msgs != [] ==> reply.RecentList? && reply.lang == lang
    ensures msgs != [] ==> reply.listing == Join(RecentSeparator, UserContents(msgs))
  {
    if msgs == [] then Localized(lang, RecentNone)
    else RecentList(lang, Join(RecentSeparator, UserContents(msgs)))
  }

  /** A non-empty retrieval without user turns lists nothing after the heading. */
  lemma RecentWithoutUserTurns(lang: string, msgs: seq<Message>)
    requires msgs != []
    requires forall m | m in msgs :: m.role != "user"
    ensures RecentReply(lang, msgs) == RecentList(lang, "")
  {
  }

  /** The "recent" listing shows at most three messages, all the user's own turns. */
  lemma RecentListsOwnUserTurns(idx: Index, userId: string, lang: string, env: ButtonCollaborators)
    ensures var msgs := GetRelevantHistory(idx, userId, RecentTopK, env.recentEmbedding, env.rank);
            var cs := UserContents(msgs);
            && |cs| <= RecentTopK
            && forall c | c in cs :: exists id | id in idx :: idx[id].userId == userId && idx[id].role == "user" && idx[id].text == c
  {
    var msgs := GetRelevantHistory(idx, userId, RecentTopK, env.recentEmbedding, env.rank);
    var cs := UserContents(msgs);
    forall c | c in cs
      ensures exists id | id in idx :: idx[id].userId == userId && idx[id].role == "user" && idx[id].text == c
    {
      var m :| m in msgs && m.role == "user" && m.content == c;
      var id :| id in idx && idx[id].userId == userId && TurnOf(idx[id]) == m;
    }
  }

  predicate IsSetLang(data: string) {
    |data| >= |SetLangPrefix| && data[..|SetLangPrefix|] == SetLangPrefix
  }

  /** The language code of a `setlang_` callback. */
  function RequestedLang(data: string): string
    requires IsSetLang(data)
  {
    data[|SetLangPrefix|..]
  }

  /** Answers one menu callback. The session's language is looked up in the
      table for every reply and for the menu keyboard attached to it. A
      language missing from the table makes that lookup raise; the error
      handler attaches the same keyboard, raises again, and the callback
      ends without sending anything. Effects already made (an erasure) stay. */
  function Button(session: Session, idx: Index, userId: string, data: string, env: ButtonCollaborators): (r: ButtonResult)
    ensures data == "clear" ==> r.index == ClearMemory(idx, userId, env.clearRanking, env.deleteOk).index
    ensures data != "clear" ==> r.index == idx
    ensures IsSetLang(data) && RequestedLang(data) in Languages ==>
              r.session == SetLang(session, RequestedLang(data)) && r.reply == Localized(RequestedLang(data), Greet)
    ensures !(IsSetLang(data) && RequestedLang(data) in Languages) ==> r.session == session
    ensures ValidSession(session) ==> ValidSession(r.session) && r.reply != Raised
    ensures !ValidSession(session) && data in ["help", "abilities", "recent", "clear", "language"] ==> r.reply == Raised
    ensures r.reply == NoReply <==> data !in ["help", "abilities", "recent", "clear", "language"] && !IsSetLang(data)
    ensures ValidSession(session) && data == "recent" ==>
              r.reply == RecentReply(GetLang(session), GetRelevantHistory(idx, userId, RecentTopK, env.recentEmbedding, env.rank))
    ensures ValidSession(session) && data == "clear" ==>
              r.reply == Localized(GetLang(session),
                                   if ClearMemory(idx, userId, env.clearRanking, env.deleteOk).cleared then Cleared else NothingClear)
    ensures ValidSession(session) && data == "help" ==> r.reply == Localized(GetLang(session), Help)
    ensures ValidSession(session) && data == "abilities" ==> r.reply == Localized(GetLang(session), Abilities)
    ensures ValidSession(session) && data == "language" ==> r.reply == Localized(GetLang(session), ChooseLanguage)
    ensures IsSetLang(data) && RequestedLang(data) !in Languages ==>
              r.reply == (if ValidSession(session) then LanguageNotSupported else Raised)
  {
    var lang := GetLang(session);
    var known := lang in Languages;
    if data == "help" then ButtonResult(if known then Localized(lang, Help) else Raised, session, idx)
    else if data == "abilities" then
      assert data[..|SetLangPrefix|][0] != SetLangPrefix[0];
      ButtonResult(if known then Localized(lang, Abilities) else Raised, session, idx)
    else if data == "recent" then
      var msgs := GetRelevantHistory(idx, userId, RecentTopK, env.recentEmbedding, env.rank);
      ButtonResult(if known then RecentReply(lang, msgs) else Raised, session, idx)
    else if data == "clear" then
      var outcome := ClearMemory(idx, userId, env.clearRanking, env.deleteOk);
      var key := if outcome.cleared then Cleared else NothingClear;
      ButtonResult(if known then Localized(lang, key) else Raised, session, outcome.index)
    else if data == "language" then
      assert data[..|SetLangPrefix|][0] != SetLangPrefix[0];
      ButtonResult(if known then Localized(lang, ChooseLanguage) else Raised, session, idx)
    else if IsSetLang(data) then
      var code := RequestedLang(data);
      if code !in Languages then ButtonResult(if known then LanguageNotSupported else Raised, session, idx)
      else ButtonResult(Localized(code, Greet), SetLang(session, code), idx)
    else ButtonResult(NoReply, session, idx)
  }
}
