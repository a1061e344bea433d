/** The per-user language state kept in the chat session, and the set of
    languages the bot has texts for. Localised texts themselves are opaque. */
module Locale {

  /** The keys of the bot's language table. */
  const Languages: set<string> := {"en", "ru", "it"}
  const DefaultLang: string := "en"
  /** The session key the chosen language is stored under. */
  const LangKey: string := "lang"

  /** The per-user session data of the chat framework. */
  type Session = map<string, string>

  /** The session's language, `"en"` when none was chosen. */
  function GetLang(session: Session): (lang: string)
    ensures LangKey in session ==> lang == session[LangKey]
    ensures LangKey !in session ==> lang == DefaultLang
  {
    if LangKey in session then session[LangKey] else DefaultLang
  }

  /** Stores `code` as the session's language, whatever it is. */
  function SetLang(session: Session, code: string): (session': Session)
    ensures GetLang(session') == code
    ensures forall k | k in session && k != LangKey :: k in session' && session'[k] == session[k]
    ensures session'.Keys == session.Keys + {LangKey}
  {
    session[LangKey := code]
  }

  /** Looking up the session's language in the table cannot fail. */
  predicate ValidSession(session: Session) {
    GetLang(session) in Languages
  }

  /** A fresh session speaks the default language, which the table has. */
  lemma FreshSessionValid()
    ensures ValidSession(map[])
    ensures GetLang(map[]) == "en"
  {
  }

  /** Stands for the system prompt of `lang` in the language table; the
      prompt's wording is not modelled, only which language it belongs to. */
  function SystemPrompt(lang: string): string {
    "system_prompt/" + lang
  }
}
