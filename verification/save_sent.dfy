/**
 The plugin's two hooks as pure functions of their inputs: `security_inspection`
 (run once all message data has arrived) and `duplicate_to_sender` (run after
 the message was queued). Whether Redis is reachable, the clock reading and the
 freshly drawn token are parameters; each hook returns its verdict together
 with the store and the header list it leaves behind.
 */
module SaveSent {
  import opened Optional
  import opened Strings
  import opened Headers
  import opened Shape
  import opened KeyValueStore
  import opened MessageText

  /** The configured names: duplicate flag header (name and value), security token header, Redis key prefix. */
  datatype Config = Config(flagName: string, flagValue: string, tokenName: string, hashName: string)

  /** Seconds a token record lives in the store (`EX : 60`). */
  const TokenTtl: nat := 60

  /** What the hook passes to `next`: `next()`, `next(DENY)` or `next(DENY, "Internal server error")`. */
  datatype Verdict = Continue | Deny | DenyInternal

  /** The flag header, the token header and the five stable headers all have different names. */
  predicate WellFormedConfig(cfg: Config)
  {
    && cfg.flagName != cfg.tokenName
    && cfg.flagName !in StableNames
    && cfg.tokenName !in StableNames
  }

  /** The Redis key of a token record, `${redis_hash_name}:${token}`. */
  function StoreKey(cfg: Config, token: string): (k: string)
    ensures |k| == |cfg.hashName| + 1 + |token|
    ensures k[..|cfg.hashName|] == cfg.hashName && k[|cfg.hashName|] == ':'
    ensures k[|cfg.hashName| + 1..] == token
  {
    cfg.hashName + ":" + token
  }

  /** Under one prefix, two tokens share a key only when they are the same token. */
  lemma StoreKeyInjective(cfg: Config, t1: string, t2: string)
    ensures StoreKey(cfg, t1) == StoreKey(cfg, t2) <==> t1 == t2
  {
    if StoreKey(cfg, t1) == StoreKey(cfg, t2) {
      assert t1 == StoreKey(cfg, t1)[|cfg.hashName| + 1..];
    }
  }

  /** The token a message presents: all token header values joined by a line feed. */
  function PresentedToken(cfg: Config, h: Headers): (r: Option<string>)
    ensures r.None? <==> !Has(h, cfg.tokenName)
    ensures r.Some? ==> r.value == Join(GetAll(h, cfg.tokenName), [LF])
    ensures |GetAll(h, cfg.tokenName)| == 1 ==> r == Some(GetAll(h, cfg.tokenName)[0])
  {
    Get(h, cfg.tokenName)
  }

  datatype TokenCheck = TokenCheck(verified: bool, store: Store, headers: Headers)

  /**
   The token part of `security_inspection`: look the presented token up,
   compare the stored shape with the shape of the arriving headers, consume
   the record on a match, and strip the token header whatever the outcome.
   */
  function CheckToken(cfg: Config, h: Headers, s: Store, now: int): (r: TokenCheck)
    ensures !Has(h, cfg.tokenName) ==> r == TokenCheck(false, s, h)
    ensures r.verified <==>
      && Has(h, cfg.tokenName)
      && Live(s, StoreKey(cfg, PresentedToken(cfg, h).value), now)
      && s[StoreKey(cfg, PresentedToken(cfg, h).value)].value == CalculateShape(h)
    ensures r.verified ==> r.store == Del(s, StoreKey(cfg, PresentedToken(cfg, h).value))
    ensures !r.verified ==> r.store == s
    ensures !Has(r.headers, cfg.tokenName)
    ensures forall n :: n != cfg.tokenName ==> GetAll(r.headers, n) == GetAll(h, n)
  {
    match PresentedToken(cfg, h)
    case None => TokenCheck(false, s, h)
    case Some(token) =>
      var key := StoreKey(cfg, token);
      var verified := Lookup(s, key, now) == Some(CalculateShape(h));
      TokenCheck(verified, if verified then Del(s, key) else s, RemoveAll(h, cfg.tokenName))
  }

  datatype Inspection = Inspection(verdict: Verdict, verified: bool, store: Store, headers: Headers)

  /** `security_inspection`: fail closed without Redis, check the token, then apply the flag policy. */
  function Inspect(cfg: Config, redisAvailable: bool, h: Headers, s: Store, now: int): (r: Inspection)
    ensures !redisAvailable ==> r == Inspection(DenyInternal, false, s, h)
    ensures redisAvailable ==> !Has(r.headers, cfg.tokenName)
    ensures redisAvailable ==> (r.verdict == Continue <==>
      !Has(r.headers, cfg.flagName) || (r.verified && |GetAll(r.headers, cfg.flagName)| == 1))
    ensures redisAvailable && Has(r.headers, cfg.flagName) && !r.verified ==> r.verdict == Deny
    ensures redisAvailable && r.verified && |GetAll(r.headers, cfg.flagName)| > 1 ==> r.verdict == DenyInternal
    ensures r.verified ==> redisAvailable && Has(h, cfg.tokenName)
    ensures r.store != s ==> r.verified
  {
    if !redisAvailable then
      Inspection(DenyInternal, false, s, h)
    else
      var c := CheckToken(cfg, h, s, now);
      var flags := GetAll(c.headers, cfg.flagName);
      var verdict :=
        if |flags| == 0 then Continue
        else if !c.verified then Deny
        else if |flags| != 1 then DenyInternal
        else Continue;
      Inspection(verdict, c.verified, c.store, c.headers)
  }

  /** The duplicate handed to `outbound.send_email(from, to, text)`. */
  datatype Outgoing = Outgoing(from: Option<string>, to: Option<string>, text: string)

  datatype Duplication = Duplication(verdict: Verdict, store: Store, sent: Option<Outgoing>)

  /** The duplicate's header fields: the original ones, then the flag and the token. */
  function DuplicateHeaders(cfg: Config, h: Headers, token: string): (d: Headers)
    ensures cfg.flagName != cfg.tokenName ==> GetAll(d, cfg.flagName) == GetAll(h, cfg.flagName) + [cfg.flagValue]
    ensures cfg.flagName != cfg.tokenName ==> GetAll(d, cfg.tokenName) == GetAll(h, cfg.tokenName) + [token]
    ensures forall n :: n != cfg.flagName && n != cfg.tokenName ==> GetAll(d, n) == GetAll(h, n)
    ensures |d| == |h| + 2 && d[..|h|] == h
  {
    var added := [Header(cfg.flagName, cfg.flagValue), Header(cfg.tokenName, token)];
    AppendedFields(h, added, cfg.flagName);
    AppendedFields(h, added, cfg.tokenName);
    forall n | n != cfg.flagName && n != cfg.tokenName
      ensures GetAll(h + added, n) == GetAll(h, n)
    {
      AppendedFields(h, added, n);
    }
    h + added
  }

  lemma AppendedFields(h: Headers, added: Headers, n: string)
    requires |added| == 2
    ensures GetAll(h + added, n) ==
      GetAll(h, n) + (if added[0].name == n then [added[0].value] else [])
                   + (if added[1].name == n then [added[1].value] else [])
  {
    GetAllAppend(h, added, n);
    assert added == [added[0], added[1]];
    GetAllPair(added[0], added[1], n);
  }

  /** Fields without line breaks render as non-empty lines without line breaks. */
  lemma FieldLinesWellFormed(h: Headers)
    requires SingleLineFields(h)
    ensures WellFormedLines(Lines(h))
  {
    forall i | 0 <= i < |h|
      ensures |Lines(h)[i]| > 0 && SingleLine(Lines(h)[i])
    {
      var f := h[i];
      var l := Lines(h)[i];
      forall j | 0 <= j < |l|
        ensures l[j] != CR && l[j] != LF
      {
        if j < |f.name| {
          assert l[j] == l[..|f.name|][j] == f.name[j];
        } else if j < |f.name| + 2 {
          assert l[j] == l[|f.name|..|f.name| + 2][j - |f.name|];
        } else {
          assert l[j] == l[|f.name| + 2..][j - |f.name| - 2] == f.value[j - |f.name| - 2];
        }
      }
    }
  }

  /**
   The duplicate's full text as the plugin builds it: its header lines joined
   by CRLF, a blank line, then the body as the plugin extracts it from the
   original text. When the fields hold no line breaks, the duplicate's first
   blank line ends its header block and its body reads back unchanged.
   */
  function DuplicateText(cfg: Config, h: Headers, raw: string, token: string): (text: string)
    ensures SingleLineFields(DuplicateHeaders(cfg, h, token)) ==>
      && FindSeparator(text, 0) == Some((|Join(Lines(DuplicateHeaders(cfg, h, token)), CRLF)|, 4))
      && BodyText(text) == BodyText(raw)
  {
    var dh := DuplicateHeaders(cfg, h, token);
    if SingleLineFields(dh) then
      FieldLinesWellFormed(dh);
      ComposeThenBody(Lines(dh), BodyText(raw));
      ComposeText(Lines(dh), BodyText(raw))
    else
      ComposeText(Lines(dh), BodyText(raw))
  }

  /**
   The duplicate's text with the corrected body, which is empty when the
   original text has no blank line. Its body reads back as the original's
   intended body.
   */
  function DuplicateTextCorrected(cfg: Config, h: Headers, raw: string, token: string): (text: string)
    ensures SingleLineFields(DuplicateHeaders(cfg, h, token)) ==> MessageBody(text) == MessageBody(raw)
    ensures FindSeparator(raw, 0).Some? ==> text == DuplicateText(cfg, h, raw, token)
  {
    var dh := DuplicateHeaders(cfg, h, token);
    if SingleLineFields(dh) then
      FieldLinesWellFormed(dh);
      ComposeThenBody(Lines(dh), MessageBody(raw));
      ComposeText(Lines(dh), MessageBody(raw))
    else
      ComposeText(Lines(dh), MessageBody(raw))
  }

  /**
   `duplicate_to_sender`: fail closed without Redis; leave a message already
   flagged as a duplicate alone; otherwise record `token -> shape` for 60
   seconds and send the flagged duplicate to the sender.
   */
  function Duplicate(cfg: Config, redisAvailable: bool, h: Headers, raw: string, s: Store, now: int, token: string)
    : (r: Duplication)
    ensures !redisAvailable ==> r == Duplication(DenyInternal, s, None)
    ensures redisAvailable ==> r.verdict == Continue
    ensures redisAvailable && Has(h, cfg.flagName) ==> r.store == s && r.sent.None?
    ensures redisAvailable && !Has(h, cfg.flagName) ==>
      && (forall t :: Lookup(r.store, StoreKey(cfg, token), t) ==
            (if t < now + TokenTtl then Some(CalculateShape(h)) else None))
      && (forall k, t :: k != StoreKey(cfg, token) ==> Lookup(r.store, k, t) == Lookup(s, k, t))
      && r.sent == Some(Outgoing(Get(h, "From"), Get(h, "To"), DuplicateText(cfg, h, raw, token)))
  {
    if !redisAvailable then
      Duplication(DenyInternal, s, None)
    else if |GetAll(h, cfg.flagName)| > 0 then
      Duplication(Continue, s, None)
    else
      var store := SetEx(s, StoreKey(cfg, token), CalculateShape(h), TokenTtl, now);
      var text := DuplicateText(cfg, h, raw, token);
      Duplication(Continue, store, Some(Outgoing(Get(h, "From"), Get(h, "To"), text)))
  }
}
