/**
 * How `/api/info` (server.js) answers when fetching the metadata fails: the
 * error's text is classified into "YouTube wants a signed-in user" (403),
 * "the yt-dlp executable could not be started" (500) or anything else (400,
 * passing the text on).
 */
module InfoErrors {
  import Text

  /**
   * What a failed yt-dlp call leaves on its error object: captured standard
   * error, the execa short message and the plain message; an empty string
   * stands for a field that is missing or empty.
   */
  datatype ToolError = ToolError(stderr: string, shortMessage: string, message: string)

  /** An HTTP status with the `{ error }` body sent with it. */
  datatype ErrorReply = ErrorReply(status: nat, error: string)

  const FALLBACK_MESSAGE := "Failed to fetch video info"
  /** Looked for in the lower-cased text. */
  const BOT_CHECK_PHRASE := "sign in to confirm"
  /** Looked for with letter case as given. */
  const NOT_FOUND_CODE := "ENOENT"
  const SPAWN_WORD := "spawn"
  const BLOCKED_MESSAGE := "YouTube blocked anonymous access. Set YT_DLP_COOKIES or YT_DLP_COOKIES_FROM_BROWSER."
  const MISSING_BINARY_MESSAGE := "yt-dlp binary not found on server. Set YT_DLP_PATH or ensure yt-dlp-exec postinstall runs."

  /** The first non-empty of standard error, short message and message, else the fallback text. */
  function ErrorMessage(e: ToolError): (text: string)
    ensures text != ""
    ensures e.stderr != "" ==> text == e.stderr
    ensures e.stderr == "" && e.shortMessage != "" ==> text == e.shortMessage
    ensures e.stderr == "" && e.shortMessage == "" && e.message != "" ==> text == e.message
    ensures e.stderr == "" && e.shortMessage == "" && e.message == "" ==> text == FALLBACK_MESSAGE
  {
    if e.stderr != "" then e.stderr
    else if e.shortMessage != "" then e.shortMessage
    else if e.message != "" then e.message
    else FALLBACK_MESSAGE
  }

  /** The text asks the user to sign in, in any letter case. */
  ghost predicate IsBotCheck(text: string) {
    Text.Mentions(Text.ToLower(text), BOT_CHECK_PHRASE)
  }

  /** The text reports that the executable could not be spawned. */
  ghost predicate IsMissingBinary(text: string) {
    Text.Mentions(text, NOT_FOUND_CODE) || Text.Mentions(text, SPAWN_WORD)
  }

  /**
   * The reply for an error text. The bot check is looked at first, so it wins
   * over a missing executable; everything else is a 400 carrying the text.
   */
  function ClassifyError(text: string): (reply: ErrorReply)
    ensures reply.status == 403 <==> IsBotCheck(text)
    ensures reply.status == 500 <==> !IsBotCheck(text) && IsMissingBinary(text)
    ensures reply.status == 400 <==> !IsBotCheck(text) && !IsMissingBinary(text)
    ensures reply.status == 403 ==> reply.error == BLOCKED_MESSAGE
    ensures reply.status == 500 ==> reply.error == MISSING_BINARY_MESSAGE
    ensures reply.status == 400 ==> reply.error == text
  {
    var lower := Text.ToLower(text);
    Text.ContainsIff(lower, BOT_CHECK_PHRASE);
    Text.ContainsIff(text, NOT_FOUND_CODE);
    Text.ContainsIff(text, SPAWN_WORD);
    var botCheck := Text.Contains(lower, BOT_CHECK_PHRASE);
    var missingBinary := Text.Contains(text, NOT_FOUND_CODE) || Text.Contains(text, SPAWN_WORD);
    if botCheck then ErrorReply(403, BLOCKED_MESSAGE)
    else if missingBinary then ErrorReply(500, MISSING_BINARY_MESSAGE)
    else ErrorReply(400, text)
  }

  /**
   * The reply `/api/info` sends for a failed metadata fetch: the error's
   * text, classified; a 400 passes that text on.
   */
  function InfoErrorReply(e: ToolError): (reply: ErrorReply)
    ensures reply.status in {400, 403, 500} && reply.error != ""
    ensures reply.status == 403 <==> IsBotCheck(ErrorMessage(e))
    ensures reply.status == 500 <==> !IsBotCheck(ErrorMessage(e)) && IsMissingBinary(ErrorMessage(e))
    ensures reply.status == 400 ==> reply.error == ErrorMessage(e)
  {
    ClassifyError(ErrorMessage(e))
  }

  // -----------------------------------------------------------------------
  // Properties of the classification

  /** Every reply is one of the three statuses and carries a non-empty error text. */
  lemma ReplyIsOneOfThree(e: ToolError)
    ensures InfoErrorReply(e).status in {400, 403, 500}
    ensures InfoErrorReply(e).error != ""
  {
  }

  /**
   * A text holding the sign-in phrase in any letter case gets 403, wherever
   * the phrase sits and whatever else (such as `ENOENT` or `spawn`) the text holds.
   */
  lemma BotCheckWins(pre: string, phrase: string, post: string)
    requires Text.ToLower(phrase) == BOT_CHECK_PHRASE
    ensures ClassifyError(pre + phrase + post) == ErrorReply(403, BLOCKED_MESSAGE)
  {
    Text.ToLowerConcat(pre + phrase, post);
    Text.ToLowerConcat(pre, phrase);
    Text.ContainsInfix(Text.ToLower(pre), BOT_CHECK_PHRASE, Text.ToLower(post));
    Text.ContainsIff(Text.ToLower(pre) + BOT_CHECK_PHRASE + Text.ToLower(post), BOT_CHECK_PHRASE);
  }

  /** A text holding `ENOENT` gets 500 unless it also holds the sign-in phrase. */
  lemma NotFoundGivesServerError(pre: string, post: string)
    ensures var text := pre + NOT_FOUND_CODE + post;
      ClassifyError(text).status == (if IsBotCheck(text) then 403 else 500)
  {
    Text.ContainsInfix(pre, NOT_FOUND_CODE, post);
    Text.ContainsIff(pre + NOT_FOUND_CODE + post, NOT_FOUND_CODE);
  }

  /** A text holding `spawn` gets 500 unless it also holds the sign-in phrase. */
  lemma SpawnGivesServerError(pre: string, post: string)
    ensures var text := pre + SPAWN_WORD + post;
      ClassifyError(text).status == (if IsBotCheck(text) then 403 else 500)
  {
    Text.ContainsInfix(pre, SPAWN_WORD, post);
    Text.ContainsIff(pre + SPAWN_WORD + post, SPAWN_WORD);
  }

  /** Unlike the sign-in phrase, `ENOENT` is matched with its letter case: `enoent` alone gives 400. */
  lemma LowerCaseNotFoundIsClientError()
    ensures ClassifyError("enoent") == ErrorReply(400, "enoent")
  {
    var text := "enoent";
    assert 'g' !in text && 'G' !in text && 'E' !in text && 'w' !in text;
    UnmarkedTextIsClientError(text);
  }

  /** A text with no `g`/`G`, no `E` and no `w` can hold none of the three markers, so it gets 400. */
  lemma UnmarkedTextIsClientError(text: string)
    requires 'g' !in text && 'G' !in text && 'E' !in text && 'w' !in text
    ensures ClassifyError(text) == ErrorReply(400, text)
  {
    Text.ToLowerAbsent(text, 'g');
    Text.AbsentCharNotMentioned(Text.ToLower(text), BOT_CHECK_PHRASE, 'g');
    Text.AbsentCharNotMentioned(text, NOT_FOUND_CODE, 'E');
    Text.AbsentCharNotMentioned(text, SPAWN_WORD, 'w');
  }

  /** The fallback text has none of the characters the markers need. */
  lemma FallbackIsUnmarked()
    ensures 'g' !in FALLBACK_MESSAGE && 'G' !in FALLBACK_MESSAGE
    ensures 'E' !in FALLBACK_MESSAGE && 'w' !in FALLBACK_MESSAGE
  {
  }

  /** An error object without any text gets 400 with the fallback text. */
  lemma NoTextGivesFallback()
    ensures InfoErrorReply(ToolError("", "", "")) == ErrorReply(400, FALLBACK_MESSAGE)
  {
    var e := ToolError("", "", "");
    assert ErrorMessage(e) == FALLBACK_MESSAGE;
    FallbackIsUnmarked();
    UnmarkedTextIsClientError(FALLBACK_MESSAGE);
  }
}
