/**
 * The model-fallback policy of the AI narrator: which OpenRouter models to try
 * (`_resolve_models`), the error messages a failed request produces, how a message is
 * classified, and the retry loop (`_call_with_retry`) that walks the models in order.
 * The HTTP request itself is an oracle: `oracle(Call(m, a))` is the outcome of the
 * `a`-th attempt on the `m`-th model of the list.
 */
module Narrator {
  import opened Wrappers
  import opened Text
  import opened Seqs

  /* ------------------------------------------------------------ model choice */

  /** `_DEFAULT_MODELS`. */
  function DefaultModels(): seq<string> {
    ["deepseek/deepseek-r1-0528:free",
     "mistralai/mistral-small-3.2-24b-instruct:free",
     "openai/gpt-oss-20b:free"]
  }

  /** Python truthiness of `os.getenv(...)`: set and non-empty. */
  predicate IsSet(v: Option<string>) {
    v.Some? && v.value != ""
  }

  /** Non-empty text with no surrounding whitespace. */
  predicate Trimmed(m: string) {
    m != [] && !IsSpace(m[0]) && !IsSpace(m[|m| - 1])
  }

  /** Python truthiness of a string: non-empty. */
  predicate NonBlank(m: string) {
    m != []
  }

  /**
   * `[m.strip() for m in parts if m.strip()]`: the stripped pieces, in order, with the
   * empty ones dropped; every entry kept is trimmed.
   */
  function StrippedEntries(parts: seq<string>): (ms: seq<string>)
    ensures ms == Filter(Map(parts, Strip), NonBlank)
    ensures |ms| <= |parts|
    ensures forall m :: m in ms ==> Trimmed(m)
    decreases |parts|
  {
    if parts == [] then []
    else
      var m := Strip(parts[0]);
      var rest := StrippedEntries(parts[1..]);
      assert Map(parts, Strip) == [m] + Map(parts[1..], Strip);
      if m == [] then rest else [m] + rest
  }

  /**
   * `_resolve_models` over the values of `OPENROUTER_MODEL` (`single`) and
   * `OPENROUTER_MODELS` (`multi`): a set single model wins as it is, unstripped; else a
   * set CSV list gives its trimmed non-empty entries; else the default list.
   */
  function ResolveModels(single: Option<string>, multi: Option<string>): (ms: seq<string>)
    ensures IsSet(single) ==> ms == [single.value]
    ensures !IsSet(single) && IsSet(multi) ==>
      ms == Filter(Map(Split(multi.value, ','), Strip), NonBlank) &&
      |ms| <= |Split(multi.value, ',')| && forall m :: m in ms ==> Trimmed(m)
    ensures !IsSet(single) && !IsSet(multi) ==> ms == DefaultModels() && |ms| == 3
  {
    if IsSet(single) then [single.value]
    else if IsSet(multi) then StrippedEntries(Split(multi.value, ','))
    else DefaultModels()
  }

  lemma StrippedEntriesUnpadded(parts: seq<string>)
    requires forall i :: 0 <= i < |parts| ==> Trimmed(parts[i])
    ensures StrippedEntries(parts) == parts
  {
    StripAllUnpadded(parts);
    FilterAll(parts, NonBlank);
  }

  lemma StripAllUnpadded(parts: seq<string>)
    requires forall i :: 0 <= i < |parts| ==> Trimmed(parts[i])
    ensures Map(parts, Strip) == parts
  {
    forall i | 0 <= i < |parts| ensures Strip(parts[i]) == parts[i] {
      StripUnpadded(parts[i]);
    }
  }

  lemma {:induction false} StrippedEntriesBlank(parts: seq<string>)
    requires forall i :: 0 <= i < |parts| ==> AllSpace(parts[i])
    ensures StrippedEntries(parts) == []
    decreases |parts|
  {
    if parts != [] {
      StripBlank(parts[0]);
      StrippedEntriesBlank(parts[1..]);
    }
  }

  /**
   * A CSV list of trimmed model names without commas resolves to exactly those names,
   * in order, whatever `OPENROUTER_MODEL` holds when it is unset or empty.
   */
  lemma ResolveModelsList(single: Option<string>, names: seq<string>)
    requires !IsSet(single)
    requires |names| >= 1
    requires forall i :: 0 <= i < |names| ==>
      names[i] != [] && !IsSpace(names[i][0]) && !IsSpace(names[i][|names[i]| - 1]) && ',' !in names[i]
    ensures ResolveModels(single, Some(Join(names, ','))) == names
  {
    SplitJoin(names, ',');
    JoinSplit(Join(names, ','), ',');
    StrippedEntriesUnpadded(names);
  }

  /** A CSV list made only of commas and whitespace, such as ",,", resolves to no model at all. */
  lemma ResolveModelsBlankList(single: Option<string>, multi: string)
    requires !IsSet(single) && multi != ""
    requires forall i :: 0 <= i < |multi| ==> multi[i] == ',' || IsSpace(multi[i])
    ensures ResolveModels(single, Some(multi)) == []
  {
    var parts := Split(multi, ',');
    forall k | 0 <= k < |parts| ensures AllSpace(parts[k]) {
      SplitPiecesBlank(multi, k);
    }
    StrippedEntriesBlank(parts);
  }

  /** The pieces of a text of commas and whitespace are whitespace. */
  lemma {:induction false} SplitPiecesBlank(s: string, k: nat)
    requires forall i :: 0 <= i < |s| ==> s[i] == ',' || IsSpace(s[i])
    requires k < |Split(s, ',')|
    ensures AllSpace(Split(s, ',')[k])
    decreases |s|
  {
    if ',' in s {
      var i := IndexOf(s, ',');
      if k > 0 {
        SplitPiecesBlank(s[i + 1..], k - 1);
      }
    }
  }

  /* ------------------------------------------------------------ error messages */

  /** Python `text[:500]`. */
  function Snippet(text: string): (r: string)
    ensures |r| <= 500 && r <= text
    ensures |r| == if |text| <= 500 then |text| else 500
  {
    if |text| <= 500 then text else text[..500]
  }

  /**
   * The error raised when the response body is not JSON:
   * `OpenRouter returned non-JSON (status <status>): <snippet>`, its fixed text written
   * in pieces so that lemmas can search it character by character.
   */
  function NonJsonMessage(status: nat, text: string): string {
    "OpenRouter" + " returned" + " non-JSON" + " (status " + NatToString(status) + "): " + Snippet(text)
  }

  /** The error raised for a JSON response with status 400 or above; `err` is the rendered `error` field. */
  function HttpErrorMessage(status: nat, err: string): string {
    "OpenRouter error " + NatToString(status) + ": " + err
  }

  /**
   * The error raised when no API key is configured:
   * `Missing OPENROUTER_API_KEY in environment/secrets.`, written in pieces so that the
   * lemmas below can search it character by character.
   */
  const MissingKeyMessage: string := "Missing " + "OPENROUTER" + "_API_" + "KEY in " + "environ" + "ment/" + "secrets."

  /** The error raised when no attempt was made at all. */
  const AllFailedMessage: string := "All OpenRouter model attempts failed."

  /* ------------------------------------------------------------ classification */

  datatype Kind = RateLimited | Transient | Fatal

  /** `"error 429" in msg or "rate-limit" in msg.lower() or "temporarily rate-limited" in msg.lower()`. */
  predicate IsRateLimit(msg: string) {
    || Contains(msg, "error 429")
    || Contains(Lower(msg), "rate-limit")
    || Contains(Lower(msg), "temporarily rate-limited")
  }

  /** `any(x in msg for x in [" 502", " 503", " 504", "gateway", "timeout"])`. */
  predicate IsTransient(msg: string) {
    || Contains(msg, " 502")
    || Contains(msg, " 503")
    || Contains(msg, " 504")
    || Contains(msg, "gateway")
    || Contains(msg, "timeout")
  }

  /** The rate-limit test is made first, so it wins over the transient test. */
  function Classify(msg: string): (k: Kind)
    ensures k == RateLimited <==> IsRateLimit(msg)
    ensures k == Transient <==> !IsRateLimit(msg) && IsTransient(msg)
  {
    if IsRateLimit(msg) then RateLimited
    else if IsTransient(msg) then Transient
    else Fatal
  }

  /** The third rate-limit test never decides anything: its pattern contains the second's. */
  lemma RateLimitThirdTestRedundant(msg: string)
    ensures IsRateLimit(msg) <==> Contains(msg, "error 429") || Contains(Lower(msg), "rate-limit")
  {
    if Contains(Lower(msg), "temporarily rate-limited") {
      ContainsInfix("temporarily ", "rate-limit", "ed");
      assert "temporarily " + "rate-limit" + "ed" == "temporarily rate-limited";
      ContainsTransitive(Lower(msg), "temporarily rate-limited", "rate-limit");
    }
  }

  /** Any HTTP 429 answered with JSON switches model at once: its message holds "error 429". */
  lemma Status429RateLimited(err: string)
    ensures Classify(HttpErrorMessage(429, err)) == RateLimited
  {
    assert NatToString(429) == "429";
    assert HttpErrorMessage(429, err) == "OpenRouter " + "error 429" + (": " + err);
    ContainsInfix("OpenRouter ", "error 429", ": " + err);
  }

  /** The body snippet ends a non-JSON message, so a pattern in the snippet is a pattern in the message. */
  lemma NonJsonHoldsBody(status: nat, text: string, p: string)
    requires Contains(Snippet(text), p)
    ensures Contains(NonJsonMessage(status, text), p)
  {
    var msg := NonJsonMessage(status, text);
    var prefix := "OpenRouter" + " returned" + " non-JSON" + " (status " + NatToString(status) + "): ";
    assert msg == prefix + Snippet(text) + [];
    ContainsInfix(prefix, Snippet(text), []);
    ContainsTransitive(msg, Snippet(text), p);
  }

  /** A non-JSON answer of any status whose body snippet holds "error 429" is rate limited. */
  lemma NonJsonRateLimitedByBody(status: nat, text: string)
    requires Contains(Snippet(text), "error 429")
    ensures Classify(NonJsonMessage(status, text)) == RateLimited
  {
    NonJsonHoldsBody(status, text, "error 429");
  }

  /** A non-JSON answer of any status whose body snippet holds "timeout" is never fatal. */
  lemma NonJsonTimeoutRetried(status: nat, text: string)
    requires Contains(Snippet(text), "timeout")
    ensures Classify(NonJsonMessage(status, text)) != Fatal
  {
    NonJsonHoldsBody(status, text, "timeout");
  }

  /**
   * The status 429 alone does not make a non-JSON answer rate limited: its message says
   * "(status 429)", not "error 429", so a body without '4' and '-' leaves it unlimited.
   */
  lemma NonJson429NotByStatus(text: string)
    requires '4' !in text && '-' !in text
    ensures Classify(NonJsonMessage(429, text)) != RateLimited
  {
    var msg := NonJsonMessage(429, text);
    var body := "): " + Snippet(text);
    assert NatToString(429) == "429";
    assert '4' !in body && '-' !in body by {
      assert '4' !in Snippet(text) && '-' !in Snippet(text);
      NonJsonCloseLacks();
    }
    NonJson429Patterns(msg, body);
    RateLimitThirdTestRedundant(msg);
  }

  /** Neither "error 429" nor "rate-limit" fits around the status of a non-JSON 429 message. */
  lemma NonJson429Patterns(msg: string, body: string)
    requires msg == "OpenRouter" + " returned" + " non-JSON" + " (status " + "429" + body
    requires '4' !in body && '-' !in body
    ensures !Contains(msg, "error 429") && !Contains(Lower(msg), "rate-limit")
  {
    NonJson429Fours(msg, body);
    NotContainsByAnchor(msg, "error 429", 6, 37);
    NonJson429Dashes(msg, body);
    NotContainsByAnchor(Lower(msg), "rate-limit", 4, 23);
  }

  /** In a non-JSON 429 message whose body has no '4', the only '4' is the status's. */
  lemma NonJson429Fours(msg: string, body: string)
    requires msg == "OpenRouter" + " returned" + " non-JSON" + " (status " + "429" + body
    requires '4' !in body
    ensures OnlyAt(msg, '4', 37) && msg[31] == 't'
  {
    NonJsonHeadLacks();
    OnlyAtJoin("OpenRouter" + " returned" + " non-JSON" + " (status ", "429", body, '4', 0);
  }

  /** In a non-JSON 429 message whose body has no '-', the only '-' is that of "non-JSON". */
  lemma NonJson429Dashes(msg: string, body: string)
    requires msg == "OpenRouter" + " returned" + " non-JSON" + " (status " + "429" + body
    requires '-' !in body
    ensures OnlyAt(Lower(msg), '-', 23) && Lower(msg)[19] == ' '
  {
    NonJsonHeadLacks();
    assert msg == ("OpenRouter" + " returned") + " non-JSON" + (" (status " + "429" + body);
    OnlyAtJoin("OpenRouter" + " returned", " non-JSON", " (status " + "429" + body, '-', 4);
    LowerOnlyAt(msg, '-', 23);
  }

  /** No character of `s` can complete a transient or rate-limit pattern that needs '2', '3', '4', 'g' or 'i'. */
  predicate LacksPatternChars(s: string) {
    '2' !in s && '3' !in s && '4' !in s && 'g' !in s && 'i' !in s && 'I' !in s
  }

  /** A message that lacks those characters matches no pattern at all. */
  lemma FatalWithoutPatternChars(msg: string)
    requires LacksPatternChars(msg)
    ensures Classify(msg) == Fatal
  {
    LowerLacks(msg, 'i');
    FatalWhenLacking(msg, 'i', 'i', '2', '3', '4', 'g', 'i');
  }

  /** A non-JSON 500 is fatal unless its body says otherwise: nothing in its fixed text matches a pattern. */
  lemma NonJson500Fatal(text: string)
    requires LacksPatternChars(text)
    ensures Classify(NonJsonMessage(500, text)) == Fatal
  {
    NonJson500Lacks(text);
    FatalWithoutPatternChars(NonJsonMessage(500, text));
  }

  lemma NonJson500Lacks(text: string)
    requires LacksPatternChars(text)
    ensures LacksPatternChars(NonJsonMessage(500, text))
  {
    var msg := NonJsonMessage(500, text);
    assert NatToString(500) == "500";
    assert LacksPatternChars(Snippet(text));
    OpenRouterLacks();
    ReturnedLacks();
    NonJsonLacks();
    StatusLacks();
    CodeLacks();
    var fixed := "OpenRouter" + " returned" + " non-JSON" + " (status " + ("500" + "): ");
    LacksJoin("OpenRouter", " returned");
    LacksJoin("OpenRouter" + " returned", " non-JSON");
    LacksJoin("OpenRouter" + " returned" + " non-JSON", " (status ");
    LacksJoin("OpenRouter" + " returned" + " non-JSON" + " (status ", "500" + "): ");
    LacksJoin(fixed, Snippet(text));
    assert msg == fixed + Snippet(text);
  }

  lemma LacksJoin(a: string, b: string)
    requires LacksPatternChars(a) && LacksPatternChars(b)
    ensures LacksPatternChars(a + b)
  {
  }

  lemma CodeLacks()
    ensures LacksPatternChars("500" + "): ")
  {
  }

  lemma OpenRouterLacks()
    ensures LacksPatternChars("OpenRouter")
  {
  }

  lemma ReturnedLacks()
    ensures LacksPatternChars(" returned")
  {
  }

  lemma NonJsonLacks()
    ensures LacksPatternChars(" non-JSON")
  {
  }

  lemma StatusLacks()
    ensures LacksPatternChars(" (status ")
  {
  }

  lemma NonJsonCloseLacks()
    ensures '4' !in "): " && '-' !in "): "
  {
  }

  /** Where '4' and '-' can occur in the fixed text of a non-JSON 429 message. */
  lemma NonJsonHeadLacks()
    ensures '4' !in "OpenRouter" + " returned" + " non-JSON" + " (status "
    ensures '-' !in "OpenRouter" + " returned" && '-' !in " (status " + "429"
    ensures OnlyAt("429", '4', 0) && OnlyAt(" non-JSON", '-', 4)
  {
  }

  /** Both error messages carry the status code right after a space. */
  lemma MessagesShowStatus(status: nat, text: string)
    ensures Contains(HttpErrorMessage(status, text), " " + NatToString(status))
    ensures Contains(NonJsonMessage(status, text), " " + NatToString(status))
  {
    var code := " " + NatToString(status);
    assert HttpErrorMessage(status, text) == "OpenRouter error" + code + (": " + text);
    ContainsInfix("OpenRouter error", code, ": " + text);
    var head := "OpenRouter" + " returned" + " non-JSON" + " (status";
    assert " (status " == " (status" + " ";
    assert NonJsonMessage(status, text) == head + code + ("): " + Snippet(text));
    ContainsInfix(head, code, "): " + Snippet(text));
  }

  /** HTTP 502, 503 and 504 are never fatal: with or without a JSON body they are retried (or rate limited). */
  lemma GatewayStatusRetried(status: nat, text: string)
    requires status == 502 || status == 503 || status == 504
    ensures Classify(HttpErrorMessage(status, text)) != Fatal
    ensures Classify(NonJsonMessage(status, text)) != Fatal
  {
    GatewayCode(status);
    MessagesShowStatus(status, text);
    RetriedByCode(HttpErrorMessage(status, text), " " + NatToString(status));
    RetriedByCode(NonJsonMessage(status, text), " " + NatToString(status));
  }

  lemma GatewayCode(status: nat)
    requires status == 502 || status == 503 || status == 504
    ensures var code := " " + NatToString(status); code == " 502" || code == " 503" || code == " 504"
  {
    if status == 502 {
      assert NatToString(status) == "502";
    } else if status == 503 {
      assert NatToString(status) == "503";
    } else {
      assert NatToString(status) == "504";
    }
  }

  /** A message holding a gateway status code is never fatal. */
  lemma RetriedByCode(msg: string, code: string)
    requires code == " 502" || code == " 503" || code == " 504"
    requires Contains(msg, code)
    ensures Classify(msg) != Fatal
  {
  }

  /** A message is fatal when each pattern has a character the message (or its lower-case form) lacks. */
  lemma FatalWhenLacking(msg: string, rate: char, temp: char, code2: char, code3: char, code4: char,
                         gate: char, time: char)
    requires '4' !in msg
    requires rate in "rate-limit" && rate !in Lower(msg)
    requires temp in "temporarily rate-limited" && temp !in Lower(msg)
    requires code2 in " 502" && code2 !in msg
    requires code3 in " 503" && code3 !in msg
    requires code4 in " 504" && code4 !in msg
    requires gate in "gateway" && gate !in msg
    requires time in "timeout" && time !in msg
    ensures Classify(msg) == Fatal
  {
    NotContainsByChar(msg, "error 429", 6);
    NoPieceWithout(Lower(msg), "rate-limit", rate);
    NoPieceWithout(Lower(msg), "temporarily rate-limited", temp);
    NoPieceWithout(msg, " 502", code2);
    NoPieceWithout(msg, " 503", code3);
    NoPieceWithout(msg, " 504", code4);
    NoPieceWithout(msg, "gateway", gate);
    NoPieceWithout(msg, "timeout", time);
  }

  lemma NoPieceWithout(s: string, p: string, c: char)
    requires c in p && c !in s
    ensures !Contains(s, p)
  {
    var k :| 0 <= k < |p| && p[k] == c;
    NotContainsByChar(s, p, k);
  }

  /** HTTP 500 is not among the transient codes: a 500 without an error body ends the model's attempts. */
  lemma Status500Fatal(msg: string)
    requires msg == HttpErrorMessage(500, "None")
    ensures Classify(msg) == Fatal
  {
    Status500Chars(msg);
    LowerNonLetter(msg, '-');
    FatalWhenLacking(msg, '-', '-', '2', '3', '4', 'g', 'i');
  }

  lemma Status500Chars(msg: string)
    requires msg == HttpErrorMessage(500, "None")
    ensures '4' !in msg && '-' !in msg && '2' !in msg && '3' !in msg && 'g' !in msg && 'i' !in msg
  {
    Status500Pieces(msg);
    Status500Digits(msg);
    Status500Letters(msg);
  }

  lemma Status500Pieces(msg: string)
    requires msg == HttpErrorMessage(500, "None")
    ensures msg == "OpenRouter" + " error" + " 500:" + " None"
  {
    assert NatToString(500) == "500";
  }

  lemma Status500Digits(msg: string)
    requires msg == "OpenRouter" + " error" + " 500:" + " None"
    ensures '4' !in msg && '2' !in msg && '3' !in msg
  {
  }

  lemma Status500Letters(msg: string)
    requires msg == "OpenRouter" + " error" + " 500:" + " None"
    ensures '-' !in msg && 'g' !in msg && 'i' !in msg
  {
  }

  /** A missing API key is fatal for the model: the loop moves on without retrying. */
  lemma MissingKeyFatal(msg: string)
    requires msg == MissingKeyMessage
    ensures Classify(msg) == Fatal
  {
    MissingKeyChars(msg);
    LowerNonLetter(msg, '-');
    FatalWhenLacking(msg, '-', '-', '5', '5', '5', 'w', 'u');
  }

  lemma MissingKeyChars(msg: string)
    requires msg == MissingKeyMessage
    ensures '4' !in msg && '-' !in msg && '5' !in msg && 'w' !in msg && 'u' !in msg
  {
    MissingKeyDigits(msg);
    MissingKeyDashW(msg);
    MissingKeyU(msg);
  }

  lemma MissingKeyDigits(msg: string)
    requires msg == MissingKeyMessage
    ensures '4' !in msg && '5' !in msg
  {
  }

  lemma MissingKeyDashW(msg: string)
    requires msg == MissingKeyMessage
    ensures '-' !in msg && 'w' !in msg
  {
  }

  lemma MissingKeyU(msg: string)
    requires msg == MissingKeyMessage
    ensures 'u' !in msg
  {
  }

  /* ------------------------------------------------------------ retry policy */

  /** The outcome of one request: the completion text, or the message of the `RuntimeError`. */
  datatype Reply = Ok(text: string) | Err(msg: string)

  /** The `attempt`-th request (from 0) to the `model`-th model of the list (from 0). */
  datatype Call = Call(model: nat, attempt: nat)

  /** `range(max_retries)` has no element when `max_retries` is not positive. */
  function Attempts(maxRetries: int): nat {
    if maxRetries < 0 then 0 else maxRetries
  }

  /** 2^k, the backoff before the (k+1)-th sleep on one model. */
  function Pow2(k: nat): (p: real)
    ensures p >= 1.0
  {
    if k == 0 then 1.0 else 2.0 * Pow2(k - 1)
  }

  predicate IsTransientErr(reply: Reply, classify: string -> Kind) {
    reply.Err? && classify(reply.msg) == Transient
  }

  /**
   * The request made after call `c` failed with an error of kind `k`: a transient failure is retried
   * on the same model while attempts remain; anything else, or running out of
   * attempts, moves to the first attempt on the next model.
   */
  function Next(c: Call, k: Kind, r: nat): (d: Call)
    ensures d.model == c.model ==> k == Transient && d.attempt == c.attempt + 1 < r
    ensures d.model != c.model ==> d == Call(c.model + 1, 0)
    ensures k == Transient && c.attempt + 1 < r ==> d == Call(c.model, c.attempt + 1)
  {
    if k == Transient && c.attempt + 1 < r then Call(c.model, c.attempt + 1)
    else Call(c.model + 1, 0)
  }

  /** The sleeps a trace of calls performs: a transient failure on attempt `a` sleeps 2^a seconds. */
  function Sleeps(calls: seq<Call>, oracle: Call -> Reply, classify: string -> Kind): seq<real>
    decreases |calls|
  {
    if calls == [] then []
    else
      var c := calls[|calls| - 1];
      Sleeps(calls[..|calls| - 1], oracle, classify) + (if IsTransientErr(oracle(c), classify) then [Pow2(c.attempt)] else [])
  }

  /**
   * The declarative retry policy for `n` models with `r` attempts each: the calls
   * start at the first attempt of the first model, every call but the last failed and
   * is followed by `Next`, and the last call either succeeded or failed with no
   * request left to make. The result is the last reply, or the generic error when no
   * call was made; the sleep log is that of the trace.
   */
  ghost predicate FollowsPolicy(n: nat, r: nat, oracle: Call -> Reply, classify: string -> Kind,
                                calls: seq<Call>, result: Reply, sleeps: seq<real>) {
    && Stepped(calls, oracle, classify, n, r)
    && (n > 0 && r > 0 ==> calls != [])
    && (calls == [] ==> result == Err(AllFailedMessage))
    && (calls != [] ==>
          var last := calls[|calls| - 1];
          result == oracle(last) && (result.Err? ==> Next(last, classify(result.msg), r).model >= n))
    && sleeps == Sleeps(calls, oracle, classify)
  }

  /** The last call of a non-empty trace failed and the loop is about to try model `m`. */
  ghost predicate ResumesAt(calls: seq<Call>, oracle: Call -> Reply, classify: string -> Kind, r: nat, m: nat) {
    calls != [] ==>
      var last := calls[|calls| - 1];
      oracle(last).Err? && Next(last, classify(oracle(last).msg), r) == Call(m, 0)
  }

  /** The calls made so far obey the step rule and the bounds. */
  ghost predicate Stepped(calls: seq<Call>, oracle: Call -> Reply, classify: string -> Kind, n: nat, r: nat) {
    && (calls != [] ==> calls[0] == Call(0, 0))
    && (forall i :: 0 <= i < |calls| ==> calls[i].model < n && calls[i].attempt < r)
    && (forall i :: 0 <= i < |calls| - 1 ==>
          oracle(calls[i]).Err? && calls[i + 1] == Next(calls[i], classify(oracle(calls[i]).msg), r))
  }

  /** Appending the call the policy makes next keeps a trace stepped. */
  lemma StepAppend(calls: seq<Call>, oracle: Call -> Reply, classify: string -> Kind, n: nat, r: nat, c: Call)
    requires Stepped(calls, oracle, classify, n, r)
    requires calls == [] ==> c == Call(0, 0)
    requires calls != [] ==>
      (oracle(calls[|calls| - 1]).Err? && c == Next(calls[|calls| - 1], classify(oracle(calls[|calls| - 1]).msg), r))
    requires c.model < n && c.attempt < r
    ensures Stepped(calls + [c], oracle, classify, n, r)
  {
    var t := calls + [c];
    assert forall i :: 0 <= i < |calls| ==> t[i] == calls[i];
  }

  lemma SleepsAppend(calls: seq<Call>, oracle: Call -> Reply, classify: string -> Kind, c: Call)
    ensures Sleeps(calls + [c], oracle, classify) ==
      Sleeps(calls, oracle, classify) + (if IsTransientErr(oracle(c), classify) then [Pow2(c.attempt)] else [])
  {
    assert (calls + [c])[..|calls|] == calls;
  }

  /** A stepped trace whose last call succeeded follows the policy, with that reply as result. */
  lemma PolicyOnSuccess(n: nat, r: nat, oracle: Call -> Reply, classify: string -> Kind,
                         calls: seq<Call>, result: Reply, sleeps: seq<real>)
    requires Stepped(calls, oracle, classify, n, r) && calls != [] && result == oracle(calls[|calls| - 1]) && result.Ok?
    requires sleeps == Sleeps(calls, oracle, classify)
    ensures FollowsPolicy(n, r, oracle, classify, calls, result, sleeps)
  {
  }

  /** A stepped trace that has run past the last model follows the policy, with the last error as result. */
  lemma PolicyOnExhaustion(n: nat, r: nat, oracle: Call -> Reply, classify: string -> Kind, calls: seq<Call>, sleeps: seq<real>)
    requires Stepped(calls, oracle, classify, n, r) && ResumesAt(calls, oracle, classify, r, n)
    requires calls == [] ==> n == 0 || r == 0
    requires sleeps == Sleeps(calls, oracle, classify)
    ensures calls != [] ==> FollowsPolicy(n, r, oracle, classify, calls, Err(oracle(calls[|calls| - 1]).msg), sleeps)
    ensures calls == [] ==> FollowsPolicy(n, r, oracle, classify, calls, Err(AllFailedMessage), sleeps)
  {
  }

  /**
   * `_call_with_retry`: tries the models in order, at most `maxRetries` times each; the
   * first success is returned at once; a rate-limit error moves to the next model, a
   * transient one sleeps for the current backoff, doubles it and retries, any other
   * error moves to the next model. When everything failed the last error is raised,
   * or the generic one if no request was made.
   */
  method CallWithRetry(models: seq<string>, maxRetries: int, oracle: Call -> Reply)
    returns (result: Reply, calls: seq<Call>, ghost sleeps: seq<real>)
    ensures FollowsPolicy(|models|, Attempts(maxRetries), oracle, Classify, calls, result, sleeps)
    ensures |models| > 0 && maxRetries > 0 ==> calls != []
    ensures calls != [] ==> result == oracle(calls[|calls| - 1])
    ensures calls == [] ==> result == Err(AllFailedMessage)
  {
    var r := Attempts(maxRetries);
    var lastErr: Option<string> := None;
    calls := [];
    sleeps := [];
    var m := 0;
    while m < |models|
      invariant 0 <= m <= |models|
      invariant Stepped(calls, oracle, Classify, |models|, r)
      invariant ResumesAt(calls, oracle, Classify, r, m)
      invariant calls == [] ==> m == 0 || r == 0
      invariant lastErr == (if calls == [] then None else Some(oracle(calls[|calls| - 1]).msg))
      invariant sleeps == Sleeps(calls, oracle, Classify)
    {
      var done;
      done, result, lastErr, calls, sleeps := TryModel(m, |models|, r, oracle, Classify, calls, sleeps, lastErr);
      if done {
        PolicyOnSuccess(|models|, r, oracle, Classify, calls, result, sleeps);
        return;
      }
      m := m + 1;
    }
    result := if lastErr.Some? then Err(lastErr.value) else Err(AllFailedMessage);
    PolicyOnExhaustion(|models|, r, oracle, Classify, calls, sleeps);
  }

  /**
   * The attempts on the `m`-th model, extending the trace `calls0`: up to `r` requests,
   * retried with a doubling backoff while the error is transient. `done` reports a
   * success, which is then `result`; otherwise the trace continues with the next model.
   */
  method TryModel(m: nat, n: nat, r: nat, oracle: Call -> Reply, classify: string -> Kind,
                  calls0: seq<Call>, ghost sleeps0: seq<real>, lastErr0: Option<string>)
    returns (done: bool, result: Reply, lastErr: Option<string>, calls: seq<Call>, ghost sleeps: seq<real>)
    requires m < n
    requires Stepped(calls0, oracle, classify, n, r) && ResumesAt(calls0, oracle, classify, r, m)
    requires calls0 == [] ==> m == 0 || r == 0
    requires lastErr0 == (if calls0 == [] then None else Some(oracle(calls0[|calls0| - 1]).msg))
    requires sleeps0 == Sleeps(calls0, oracle, classify)
    ensures Stepped(calls, oracle, classify, n, r) && sleeps == Sleeps(calls, oracle, classify)
    ensures done ==> calls != [] && result == oracle(calls[|calls| - 1]) && result.Ok?
    ensures !done ==> ResumesAt(calls, oracle, classify, r, m + 1)
    ensures !done ==> (calls == [] ==> r == 0)
    ensures !done ==> lastErr == (if calls == [] then None else Some(oracle(calls[|calls| - 1]).msg))
  {
    calls, sleeps, lastErr := calls0, sleeps0, lastErr0;
    done, result := false, Err(AllFailedMessage);
    var backoff := 1.0;
    var attempt := 0;
    while attempt < r
      invariant Trying(calls0, calls, oracle, classify, n, r, m, attempt, lastErr, sleeps)
      invariant backoff == Pow2(attempt)
    {
      var c := Call(m, attempt);
      var reply := oracle(c);
      ghost var before, prevErr := calls, lastErr;
      calls := calls + [c];
      if reply.Ok? {
        TryingSucceeded(calls0, before, oracle, classify, n, r, m, attempt, prevErr, sleeps);
        done, result := true, reply;
        return;
      }
      var msg := reply.msg;
      lastErr := Some(msg);
      var kind := classify(msg);
      if kind == RateLimited {
        TryingStopped(calls0, before, oracle, classify, n, r, m, attempt, prevErr, sleeps);
        return;
      }
      if kind == Transient {
        TryingRetried(calls0, before, oracle, classify, n, r, m, attempt, prevErr, sleeps);
        sleeps := sleeps + [backoff];
        backoff := 2.0 * backoff;
        attempt := attempt + 1;
        continue;
      }
      TryingStopped(calls0, before, oracle, classify, n, r, m, attempt, prevErr, sleeps);
      return;
    }
    TryingExhausted(calls0, calls, oracle, classify, n, r, m, attempt, lastErr, sleeps);
  }

  /** The loop invariant of `TryModel`: attempt `attempt` on model `m` is next, after the trace `calls`. */
  ghost predicate Trying(calls0: seq<Call>, calls: seq<Call>, oracle: Call -> Reply, classify: string -> Kind,
                         n: nat, r: nat, m: nat, attempt: nat, lastErr: Option<string>, sleeps: seq<real>) {
    && m < n && attempt <= r
    && ResumesAt(calls0, oracle, classify, r, m) && (calls0 == [] ==> m == 0 || r == 0)
    && Stepped(calls, oracle, classify, n, r)
    && (attempt == 0 ==> calls == calls0)
    && (attempt > 0 ==> calls != [] && calls[|calls| - 1] == Call(m, attempt - 1) &&
                        IsTransientErr(oracle(calls[|calls| - 1]), classify))
    && lastErr == (if calls == [] then None else Some(oracle(calls[|calls| - 1]).msg))
    && sleeps == Sleeps(calls, oracle, classify)
  }

  /** A request that succeeds extends the trace by one policy step and sleeps nothing. */
  lemma TryingSucceeded(calls0: seq<Call>, calls: seq<Call>, oracle: Call -> Reply, classify: string -> Kind,
                        n: nat, r: nat, m: nat, attempt: nat, lastErr: Option<string>, sleeps: seq<real>)
    requires Trying(calls0, calls, oracle, classify, n, r, m, attempt, lastErr, sleeps) && attempt < r
    requires oracle(Call(m, attempt)).Ok?
    ensures Stepped(calls + [Call(m, attempt)], oracle, classify, n, r)
    ensures sleeps == Sleeps(calls + [Call(m, attempt)], oracle, classify)
  {
    AttemptStep(calls0, calls, oracle, classify, n, r, m, attempt);
    SleepsAppend(calls, oracle, classify, Call(m, attempt));
  }

  /** A transient failure extends the trace by one policy step and sleeps 2^attempt seconds. */
  lemma TryingRetried(calls0: seq<Call>, calls: seq<Call>, oracle: Call -> Reply, classify: string -> Kind,
                      n: nat, r: nat, m: nat, attempt: nat, lastErr: Option<string>, sleeps: seq<real>)
    requires Trying(calls0, calls, oracle, classify, n, r, m, attempt, lastErr, sleeps) && attempt < r
    requires IsTransientErr(oracle(Call(m, attempt)), classify)
    ensures Trying(calls0, calls + [Call(m, attempt)], oracle, classify, n, r, m, attempt + 1,
                   Some(oracle(Call(m, attempt)).msg), sleeps + [Pow2(attempt)])
  {
    AttemptStep(calls0, calls, oracle, classify, n, r, m, attempt);
    SleepsAppend(calls, oracle, classify, Call(m, attempt));
  }
  /** A failure that is not retried on this model extends the trace by one step and moves on to model `m + 1`. */
  lemma TryingStopped(calls0: seq<Call>, calls: seq<Call>, oracle: Call -> Reply, classify: string -> Kind,
                      n: nat, r: nat, m: nat, attempt: nat, lastErr: Option<string>, sleeps: seq<real>)
    requires Trying(calls0, calls, oracle, classify, n, r, m, attempt, lastErr, sleeps) && attempt < r
    requires oracle(Call(m, attempt)).Err? && !IsTransientErr(oracle(Call(m, attempt)), classify)
    ensures Stepped(calls + [Call(m, attempt)], oracle, classify, n, r)
    ensures sleeps == Sleeps(calls + [Call(m, attempt)], oracle, classify)
    ensures ResumesAt(calls + [Call(m, attempt)], oracle, classify, r, m + 1)
  {
    AttemptStep(calls0, calls, oracle, classify, n, r, m, attempt);
    SleepsAppend(calls, oracle, classify, Call(m, attempt));
    MovesOn(calls + [Call(m, attempt)], oracle, classify, r, m);
  }

  /** When every attempt on model `m` is spent, the next request goes to model `m + 1`. */
  lemma TryingExhausted(calls0: seq<Call>, calls: seq<Call>, oracle: Call -> Reply, classify: string -> Kind,
                        n: nat, r: nat, m: nat, attempt: nat, lastErr: Option<string>, sleeps: seq<real>)
    requires Trying(calls0, calls, oracle, classify, n, r, m, attempt, lastErr, sleeps) && attempt >= r
    ensures ResumesAt(calls, oracle, classify, r, m + 1)
    ensures calls == [] ==> r == 0
  {
    if r > 0 {
      MovesOn(calls, oracle, classify, r, m);
    }
  }



  /**
   * After a failure on model `m` that is not retried there (it is not transient, or
   * it was the last attempt), the next request goes to model `m + 1`.
   */
  lemma MovesOn(calls: seq<Call>, oracle: Call -> Reply, classify: string -> Kind, r: nat, m: nat)
    requires calls != [] && calls[|calls| - 1].model == m
    requires oracle(calls[|calls| - 1]).Err?
    requires var last := calls[|calls| - 1];
      classify(oracle(last).msg) != Transient || last.attempt + 1 >= r
    ensures ResumesAt(calls, oracle, classify, r, m + 1)
  {
  }

  /** The request `TryModel` makes next extends its trace by one policy step. */
  lemma AttemptStep(calls0: seq<Call>, calls: seq<Call>, oracle: Call -> Reply, classify: string -> Kind,
                    n: nat, r: nat, m: nat, attempt: nat)
    requires m < n && attempt < r
    requires ResumesAt(calls0, oracle, classify, r, m) && (calls0 == [] ==> m == 0 || r == 0)
    requires Stepped(calls, oracle, classify, n, r)
    requires attempt == 0 ==> calls == calls0
    requires attempt > 0 ==> calls != [] && calls[|calls| - 1] == Call(m, attempt - 1) &&
                             IsTransientErr(oracle(calls[|calls| - 1]), classify)
    ensures Stepped(calls + [Call(m, attempt)], oracle, classify, n, r)
  {
    StepAppend(calls, oracle, classify, n, r, Call(m, attempt));
  }

  /* ------------------------------------------------------------ policy lemmas */

  lemma {:induction false} PolicyAgreeAt(n: nat, r: nat, oracle: Call -> Reply, classify: string -> Kind,
                                         c1: seq<Call>, res1: Reply, s1: seq<real>,
                                         c2: seq<Call>, res2: Reply, s2: seq<real>, i: nat)
    requires FollowsPolicy(n, r, oracle, classify, c1, res1, s1) && FollowsPolicy(n, r, oracle, classify, c2, res2, s2)
    requires i < |c1| && i < |c2|
    ensures c1[i] == c2[i]
    decreases i
  {
    if i > 0 {
      PolicyAgreeAt(n, r, oracle, classify, c1, res1, s1, c2, res2, s2, i - 1);
    }
  }

  /** The policy leaves no choice: for the same models and replies there is one trace, one result, one sleep log. */
  lemma PolicyDeterministic(n: nat, r: nat, oracle: Call -> Reply, classify: string -> Kind,
                            c1: seq<Call>, res1: Reply, s1: seq<real>,
                            c2: seq<Call>, res2: Reply, s2: seq<real>)
    requires FollowsPolicy(n, r, oracle, classify, c1, res1, s1) && FollowsPolicy(n, r, oracle, classify, c2, res2, s2)
    ensures c1 == c2 && res1 == res2 && s1 == s2
  {
    forall i | 0 <= i < |c1| && i < |c2| ensures c1[i] == c2[i] {
      PolicyAgreeAt(n, r, oracle, classify, c1, res1, s1, c2, res2, s2, i);
    }
    if |c1| < |c2| {
      PolicyCutShort(n, r, oracle, classify, c1, res1, s1, c2, res2, s2);
    } else if |c2| < |c1| {
      PolicyCutShort(n, r, oracle, classify, c2, res2, s2, c1, res1, s1);
    }
    assert c1 == c2;
  }

  /** Every call but the last of a trace failed and leads on to a model of the list. */
  lemma PolicyContinues(n: nat, r: nat, oracle: Call -> Reply, classify: string -> Kind,
                        calls: seq<Call>, result: Reply, sleeps: seq<real>, k: nat)
    requires FollowsPolicy(n, r, oracle, classify, calls, result, sleeps) && k < |calls| - 1
    ensures oracle(calls[k]).Err? && Next(calls[k], classify(oracle(calls[k]).msg), r).model < n
  {
    assert calls[k + 1].model < n;
  }

  lemma PolicyCutShort(n: nat, r: nat, oracle: Call -> Reply, classify: string -> Kind,
                       c1: seq<Call>, res1: Reply, s1: seq<real>,
                       c2: seq<Call>, res2: Reply, s2: seq<real>)
    requires FollowsPolicy(n, r, oracle, classify, c1, res1, s1) && FollowsPolicy(n, r, oracle, classify, c2, res2, s2)
    requires forall i :: 0 <= i < |c1| && i < |c2| ==> c1[i] == c2[i]
    ensures |c2| <= |c1|
  {
    if |c1| < |c2| {
      var k := |c1| - 1;
      PolicyContinues(n, r, oracle, classify, c2, res2, s2, k);
      assert false;
    }
  }

  /** `model * r + attempt`: the position of a call in the grid of all possible calls. */
  function Rank(c: Call, r: nat): nat {
    c.model * r + c.attempt
  }

  lemma NextRank(c: Call, k: Kind, r: nat)
    requires c.attempt < r
    ensures Rank(c, r) < Rank(Next(c, k, r), r)
    ensures c.model <= Next(c, k, r).model
  {
    var d := Next(c, k, r);
    if d.model != c.model {
      assert Rank(d, r) == c.model * r + r;
    }
  }

  lemma {:induction false} PolicyRankGrows(n: nat, r: nat, oracle: Call -> Reply, classify: string -> Kind,
                                           calls: seq<Call>, result: Reply, sleeps: seq<real>, i: nat, j: nat)
    requires FollowsPolicy(n, r, oracle, classify, calls, result, sleeps)
    requires i < j < |calls|
    ensures Rank(calls[i], r) + (j - i) <= Rank(calls[j], r)
    ensures calls[i].model <= calls[j].model
    decreases j - i
  {
    NextRank(calls[j - 1], classify(oracle(calls[j - 1]).msg), r);
    if i < j - 1 {
      PolicyRankGrows(n, r, oracle, classify, calls, result, sleeps, i, j - 1);
    }
  }

  /**
   * Models are tried in list order and no (model, attempt) pair is requested twice,
   * so no model is revisited; there are at most `n * r` requests in all.
   */
  lemma PolicyCallsBounded(n: nat, r: nat, oracle: Call -> Reply, classify: string -> Kind,
                           calls: seq<Call>, result: Reply, sleeps: seq<real>)
    requires FollowsPolicy(n, r, oracle, classify, calls, result, sleeps)
    ensures forall i, j :: 0 <= i < j < |calls| ==> calls[i] != calls[j] && calls[i].model <= calls[j].model
    ensures |calls| <= n * r
  {
    forall i, j | 0 <= i < j < |calls| ensures calls[i] != calls[j] && calls[i].model <= calls[j].model {
      PolicyRankGrows(n, r, oracle, classify, calls, result, sleeps, i, j);
    }
    if |calls| > 1 {
      PolicyRankGrows(n, r, oracle, classify, calls, result, sleeps, 0, |calls| - 1);
    }
    if calls != [] {
      RankBelow(calls[|calls| - 1], n, r);
    }
  }

  /** A call within the grid of `n` models and `r` attempts ranks below `n * r`. */
  lemma RankBelow(c: Call, n: nat, r: nat)
    requires c.model < n && c.attempt < r
    ensures Rank(c, r) < n * r
  {
    assert c.model * r + r == (c.model + 1) * r;
    assert (c.model + 1) * r <= n * r by {
      MulMono(c.model + 1, n, r);
    }
  }

  lemma MulMono(a: nat, b: nat, k: nat)
    requires a <= b
    ensures a * k <= b * k
  {
  }

  /**
   * Attempts on a model are consecutive from 0, and a model is retried only after a
   * transient failure; the first success ends the trace and is the result.
   */
  lemma PolicyAttempts(n: nat, r: nat, oracle: Call -> Reply, classify: string -> Kind,
                       calls: seq<Call>, result: Reply, sleeps: seq<real>)
    requires FollowsPolicy(n, r, oracle, classify, calls, result, sleeps)
    ensures forall i :: 0 <= i < |calls| && calls[i].attempt > 0 ==>
      i > 0 && calls[i - 1] == Call(calls[i].model, calls[i].attempt - 1) && IsTransientErr(oracle(calls[i - 1]), classify)
    ensures forall i :: 0 <= i < |calls| && oracle(calls[i]).Ok? ==> i == |calls| - 1 && result == oracle(calls[i])
    ensures forall i :: 0 <= i < |calls| - 1 && !IsTransientErr(oracle(calls[i]), classify) ==>
      calls[i + 1] == Call(calls[i].model + 1, 0)
  {
  }

  /** A retry on the same model follows a transient failure on the attempt before. */
  lemma PolicyRetryStep(n: nat, r: nat, oracle: Call -> Reply, classify: string -> Kind,
                        calls: seq<Call>, result: Reply, sleeps: seq<real>, i: nat)
    requires FollowsPolicy(n, r, oracle, classify, calls, result, sleeps)
    requires i < |calls| && calls[i].attempt > 0
    ensures i > 0 && calls[i - 1] == Call(calls[i].model, calls[i].attempt - 1)
    ensures IsTransientErr(oracle(calls[i - 1]), classify)
  {
  }

  /** The sleep log grows by one entry exactly at a transient failure. */
  lemma SleepsStep(calls: seq<Call>, oracle: Call -> Reply, classify: string -> Kind, j: nat)
    requires j < |calls|
    ensures Sleeps(calls[..j + 1], oracle, classify) ==
      Sleeps(calls[..j], oracle, classify) + (if IsTransientErr(oracle(calls[j]), classify) then [Pow2(calls[j].attempt)] else [])
  {
    assert calls[..j + 1][..j] == calls[..j];
  }

  /**
   * A call on attempt `a` is preceded, on its model, by `a` transient failures on
   * attempts 0, ..., a-1.
   */
  lemma {:induction false} PolicyRetries(n: nat, r: nat, oracle: Call -> Reply, classify: string -> Kind,
                                         calls: seq<Call>, result: Reply, sleeps: seq<real>, i: nat)
    requires FollowsPolicy(n, r, oracle, classify, calls, result, sleeps)
    requires i < |calls|
    ensures calls[i].attempt <= i
    ensures forall t :: 0 <= t < calls[i].attempt ==>
      calls[i - calls[i].attempt + t] == Call(calls[i].model, t) &&
      IsTransientErr(oracle(calls[i - calls[i].attempt + t]), classify)
    decreases i
  {
    var a := calls[i].attempt;
    if a > 0 {
      PolicyRetryStep(n, r, oracle, classify, calls, result, sleeps, i);
      PolicyRetries(n, r, oracle, classify, calls, result, sleeps, i - 1);
      forall t | 0 <= t < a
        ensures calls[i - a + t] == Call(calls[i].model, t) && IsTransientErr(oracle(calls[i - a + t]), classify)
      {
        if t < a - 1 {
          assert i - a + t == (i - 1) - calls[i - 1].attempt + t;
        }
      }
    }
  }

  /**
   * Backoff doubles per model and restarts at 1 on a new model: the `a` transient
   * failures before a call on attempt `a` slept 2^0, ..., 2^(a-1) seconds, in order.
   */
  lemma PolicyBackoff(n: nat, r: nat, oracle: Call -> Reply, classify: string -> Kind,
                      calls: seq<Call>, result: Reply, sleeps: seq<real>, i: nat)
    requires FollowsPolicy(n, r, oracle, classify, calls, result, sleeps)
    requires i < |calls|
    ensures calls[i].attempt <= i
    ensures forall t :: 0 <= t < calls[i].attempt ==>
      var j := i - calls[i].attempt + t;
      Sleeps(calls[..j + 1], oracle, classify) == Sleeps(calls[..j], oracle, classify) + [Pow2(t)]
  {
    PolicyRetries(n, r, oracle, classify, calls, result, sleeps, i);
    var a := calls[i].attempt;
    forall t | 0 <= t < a
      ensures Sleeps(calls[..i - a + t + 1], oracle, classify) == Sleeps(calls[..i - a + t], oracle, classify) + [Pow2(t)]
    {
      var j := i - a + t;
      assert calls[j] == Call(calls[i].model, t) && IsTransientErr(oracle(calls[j]), classify);
      SleepsStep(calls, oracle, classify, j);
    }
  }
}
