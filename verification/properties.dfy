/**
 The security claims of the duplicate-marking protocol, stated over the model
 of the two hooks: the flag decision table, single use of a token, tamper
 detection, expiry, the issue-then-inspect round trip and the carried body.
 */
module SaveSentProperties {
  import opened Optional
  import opened Strings
  import opened Headers
  import opened Shape
  import opened KeyValueStore
  import opened MessageText
  import opened SaveSent

  /**
   The flag decision table, read off the headers as they arrive: no flag
   passes; an unverified flag is denied; a verified flag that occurs more
   than once is an internal error; a single verified flag passes.
   */
  lemma DecisionTable(cfg: Config, h: Headers, s: Store, now: int)
    requires WellFormedConfig(cfg)
    ensures var r := Inspect(cfg, true, h, s, now);
      && (!Has(h, cfg.flagName) ==> r.verdict == Continue)
      && (Has(h, cfg.flagName) && !r.verified ==> r.verdict == Deny)
      && (|GetAll(h, cfg.flagName)| > 1 && r.verified ==> r.verdict == DenyInternal)
      && (|GetAll(h, cfg.flagName)| == 1 && r.verified ==> r.verdict == Continue)
  {
    var c := CheckToken(cfg, h, s, now);
    assert GetAll(c.headers, cfg.flagName) == GetAll(h, cfg.flagName);
  }

  /** A message without a token header is not verified and leaves store and headers as they were. */
  lemma NoTokenNoChange(cfg: Config, h: Headers, s: Store, now: int)
    requires !Has(h, cfg.tokenName)
    ensures var r := Inspect(cfg, true, h, s, now);
      !r.verified && r.store == s && r.headers == h
  {
  }

  /** A flag header without any token header is a forgery and is denied outright. */
  lemma ForgedFlagDenied(cfg: Config, h: Headers, s: Store, now: int)
    requires WellFormedConfig(cfg)
    requires Has(h, cfg.flagName) && !Has(h, cfg.tokenName)
    ensures Inspect(cfg, true, h, s, now).verdict == Deny
  {
    DecisionTable(cfg, h, s, now);
  }

  /**
   Verification succeeds exactly when the store holds a live record under
   the presented token whose value equals the arriving message's shape.
   */
  lemma VerifiedIffLiveMatchingRecord(cfg: Config, h: Headers, s: Store, now: int)
    ensures Inspect(cfg, true, h, s, now).verified <==>
      exists token ::
        && PresentedToken(cfg, h) == Some(token)
        && Lookup(s, StoreKey(cfg, token), now) == Some(CalculateShape(h))
  {
    if Has(h, cfg.tokenName) {
      var token := PresentedToken(cfg, h).value;
      assert PresentedToken(cfg, h) == Some(token);
    }
  }

  /**
   Single use: once a token has verified, its record is gone, so any later
   message presenting the same token is not verified and changes nothing.
   */
  lemma SingleUse(cfg: Config, h: Headers, s: Store, now: int, h2: Headers, later: int)
    requires Inspect(cfg, true, h, s, now).verified
    requires PresentedToken(cfg, h2) == PresentedToken(cfg, h)
    ensures var first := Inspect(cfg, true, h, s, now);
      var second := Inspect(cfg, true, h2, first.store, later);
      !second.verified && second.store == first.store
  {
    var first := Inspect(cfg, true, h, s, now);
    var key := StoreKey(cfg, PresentedToken(cfg, h).value);
    assert first.store == Del(s, key);
    assert !Live(first.store, key, later);
  }

  /**
   Tampering: when the shape stored for the presented token differs from the
   arriving message's shape, the message is not verified, the record stays in
   place, and a flag it carries is denied.
   */
  lemma ShapeMismatchRejected(cfg: Config, h: Headers, s: Store, now: int, token: string, stored: string)
    requires WellFormedConfig(cfg)
    requires PresentedToken(cfg, h) == Some(token)
    requires Lookup(s, StoreKey(cfg, token), now) == Some(stored)
    requires stored != CalculateShape(h)
    ensures var r := Inspect(cfg, true, h, s, now);
      && !r.verified && r.store == s
      && (Has(h, cfg.flagName) ==> r.verdict == Deny)
  {
    DecisionTable(cfg, h, s, now);
  }

  /** The token header never survives an inspection of a message that carried one. */
  lemma TokenHeaderAlwaysStripped(cfg: Config, h: Headers, s: Store, now: int)
    requires Has(h, cfg.tokenName)
    ensures var r := Inspect(cfg, true, h, s, now);
      && !Has(r.headers, cfg.tokenName)
      && (forall n :: n != cfg.tokenName ==> GetAll(r.headers, n) == GetAll(h, n))
  {
  }

  /** Without Redis neither hook proceeds: both deny with an internal error and write nothing. */
  lemma FailClosed(cfg: Config, h: Headers, raw: string, s: Store, now: int, token: string)
    ensures Inspect(cfg, false, h, s, now) == Inspection(DenyInternal, false, s, h)
    ensures Duplicate(cfg, false, h, raw, s, now, token) == Duplication(DenyInternal, s, None)
  {
  }

  /**
   Issuing a fresh token adds exactly one record to the store and touches no
   other record; a message already flagged adds none.
   */
  lemma DuplicateWritesOneRecord(cfg: Config, h: Headers, raw: string, s: Store, now: int, token: string)
    requires StoreKey(cfg, token) !in s
    ensures var d := Duplicate(cfg, true, h, raw, s, now, token);
      && (!Has(h, cfg.flagName) ==> d.store.Keys == s.Keys + {StoreKey(cfg, token)} && |d.store| == |s| + 1)
      && (Has(h, cfg.flagName) ==> d.store == s)
      && (forall k :: k in s ==> k in d.store && d.store[k] == s[k])
  {
    var d := Duplicate(cfg, true, h, raw, s, now, token);
    if !Has(h, cfg.flagName) {
      assert d.store == s[StoreKey(cfg, token) := Entry(CalculateShape(h), now + TokenTtl)];
    }
  }

  /** The fields a duplicate arrives with keep the stable values, hence the shape, of the original. */
  lemma DuplicateKeepsShape(cfg: Config, h: Headers, token: string)
    requires WellFormedConfig(cfg)
    ensures SameStableValues(DuplicateHeaders(cfg, h, token), h)
    ensures CalculateShape(DuplicateHeaders(cfg, h, token)) == CalculateShape(h)
  {
    var dh := DuplicateHeaders(cfg, h, token);
    forall n | n in StableNames
      ensures StableValue(dh, n) == StableValue(h, n)
    {
      assert GetAll(dh, n) == GetAll(h, n);
    }
    ShapeDependsOnlyOnStableValues(dh, h);
  }

  /**
   Round trip: a message presenting exactly the issued token, with the same
   stable values as the original, inspected within the token's lifetime, is
   verified and consumes the record; it passes unless its flag is duplicated.
   */
  lemma IssueThenInspect(
    cfg: Config, h: Headers, raw: string, s: Store, now: int, token: string,
    h2: Headers, later: int)
    requires WellFormedConfig(cfg)
    requires !Has(h, cfg.flagName)
    requires GetAll(h2, cfg.tokenName) == [token]
    requires SameStableValues(h2, h)
    requires later < now + TokenTtl
    ensures var d := Duplicate(cfg, true, h, raw, s, now, token);
      var r := Inspect(cfg, true, h2, d.store, later);
      && r.verified
      && StoreKey(cfg, token) !in r.store
      && (forall k :: k != StoreKey(cfg, token) ==> Lookup(r.store, k, later) == Lookup(s, k, later))
      && (r.verdict == Continue <==> |GetAll(h2, cfg.flagName)| <= 1)
  {
    ShapeDependsOnlyOnStableValues(h2, h);
    DecisionTable(cfg, h2, Duplicate(cfg, true, h, raw, s, now, token).store, later);
  }

  /** The duplicate itself, looped back within the lifetime, passes inspection with its flag. */
  lemma DuplicateLoopsBack(cfg: Config, h: Headers, raw: string, s: Store, now: int, token: string, later: int)
    requires WellFormedConfig(cfg)
    requires !Has(h, cfg.flagName) && !Has(h, cfg.tokenName)
    requires later < now + TokenTtl
    ensures var d := Duplicate(cfg, true, h, raw, s, now, token);
      var r := Inspect(cfg, true, DuplicateHeaders(cfg, h, token), d.store, later);
      && r.verified && r.verdict == Continue
      && StoreKey(cfg, token) !in r.store
      && r.headers == h + [Header(cfg.flagName, cfg.flagValue)]
  {
    var dh := DuplicateHeaders(cfg, h, token);
    DuplicateKeepsShape(cfg, h, token);
    assert GetAll(dh, cfg.tokenName) == [token];
    IssueThenInspect(cfg, h, raw, s, now, token, dh, later);
    assert GetAll(dh, cfg.flagName) == [cfg.flagValue];
    StripTokenFromDuplicate(cfg, h, token);
  }

  lemma StripTokenFromDuplicate(cfg: Config, h: Headers, token: string)
    requires cfg.flagName != cfg.tokenName && !Has(h, cfg.tokenName)
    ensures RemoveAll(DuplicateHeaders(cfg, h, token), cfg.tokenName) == h + [Header(cfg.flagName, cfg.flagValue)]
  {
    var flag := Header(cfg.flagName, cfg.flagValue);
    RemoveAllAppend(h + [flag], [Header(cfg.tokenName, token)], cfg.tokenName);
    RemoveAllAppend(h, [flag], cfg.tokenName);
    assert DuplicateHeaders(cfg, h, token) == (h + [flag]) + [Header(cfg.tokenName, token)];
    assert RemoveAll([Header(cfg.tokenName, token)], cfg.tokenName) == [];
    assert RemoveAll([flag], cfg.tokenName) == [flag];
  }

  lemma {:induction false} RemoveAllAppend(a: Headers, b: Headers, name: string)
    ensures RemoveAll(a + b, name) == RemoveAll(a, name) + RemoveAll(b, name)
    decreases |a|
  {
    if |a| > 0 {
      assert (a + b)[1..] == a[1..] + b;
      RemoveAllAppend(a[1..], b, name);
    } else {
      assert a + b == b;
    }
  }

  /** Expiry: once the lifetime is over, the issued token never verifies again. */
  lemma ExpiredTokenRejected(
    cfg: Config, h: Headers, raw: string, s: Store, now: int, token: string,
    h2: Headers, later: int)
    requires !Has(h, cfg.flagName)
    requires PresentedToken(cfg, h2) == Some(token)
    requires later >= now + TokenTtl
    ensures var d := Duplicate(cfg, true, h, raw, s, now, token);
      !Inspect(cfg, true, h2, d.store, later).verified
  {
    var d := Duplicate(cfg, true, h, raw, s, now, token);
    assert Lookup(d.store, StoreKey(cfg, token), later).None?;
  }

  /**
   Tamper detection after issue: a message presenting the issued token whose
   shape differs from the original's is not verified, the record survives
   for its remaining lifetime, and its flag is denied.
   */
  lemma TamperedCopyRejected(
    cfg: Config, h: Headers, raw: string, s: Store, now: int, token: string,
    h2: Headers, later: int)
    requires WellFormedConfig(cfg)
    requires !Has(h, cfg.flagName)
    requires PresentedToken(cfg, h2) == Some(token)
    requires CalculateShape(h2) != CalculateShape(h)
    ensures var d := Duplicate(cfg, true, h, raw, s, now, token);
      var r := Inspect(cfg, true, h2, d.store, later);
      && !r.verified && r.store == d.store
      && (Has(h2, cfg.flagName) ==> r.verdict == Deny)
  {
    var d := Duplicate(cfg, true, h, raw, s, now, token);
    DecisionTable(cfg, h2, d.store, later);
  }

  /**
   The whole outbound path: an unflagged message passes inspection, is
   duplicated under a new token, and the duplicate looping back within the
   lifetime passes with its flag and consumes the token; replaying that
   duplicate afterwards is denied.
   */
  lemma OutboundThenLoopback(cfg: Config, h: Headers, raw: string, s: Store, now: int, token: string, later: int, replay: int)
    requires WellFormedConfig(cfg)
    requires !Has(h, cfg.flagName)
    requires later < now + TokenTtl
    ensures var outbound := Inspect(cfg, true, h, s, now);
      var d := Duplicate(cfg, true, outbound.headers, raw, outbound.store, now, token);
      var loop := Inspect(cfg, true, DuplicateHeaders(cfg, outbound.headers, token), d.store, later);
      var again := Inspect(cfg, true, DuplicateHeaders(cfg, outbound.headers, token), loop.store, replay);
      && outbound.verdict == Continue
      && d.sent.Some?
      && loop.verified && loop.verdict == Continue
      && !again.verified && again.verdict == Deny
  {
    var outbound := Inspect(cfg, true, h, s, now);
    DecisionTable(cfg, h, s, now);
    assert !Has(outbound.headers, cfg.flagName) by {
      assert GetAll(outbound.headers, cfg.flagName) == GetAll(h, cfg.flagName);
    }
    var d := Duplicate(cfg, true, outbound.headers, raw, outbound.store, now, token);
    DuplicateLoopsBack(cfg, outbound.headers, raw, outbound.store, now, token, later);
    var dh := DuplicateHeaders(cfg, outbound.headers, token);
    var loop := Inspect(cfg, true, dh, d.store, later);
    SingleUse(cfg, dh, d.store, later, dh, replay);
    assert GetAll(dh, cfg.flagName) == [cfg.flagValue];
    DecisionTable(cfg, dh, loop.store, replay);
  }

  /**
   The duplicate carries the original body as the plugin extracts it: reading
   the body out of the duplicate's text gives the body read out of the
   original text, and the blank line sits right after the duplicate's last
   header line. The corrected text carries the intended body the same way.
   */
  lemma DuplicateCarriesBody(cfg: Config, h: Headers, raw: string, token: string)
    requires SingleLineFields(h)
    requires SingleLine(cfg.flagName) && SingleLine(cfg.flagValue)
    requires SingleLine(cfg.tokenName) && SingleLine(token)
    ensures var text := DuplicateText(cfg, h, raw, token);
      && BodyText(text) == BodyText(raw)
      && FindSeparator(text, 0) == Some((|Join(Lines(DuplicateHeaders(cfg, h, token)), CRLF)|, 4))
    ensures MessageBody(DuplicateTextCorrected(cfg, h, raw, token)) == MessageBody(raw)
  {
    var dh := DuplicateHeaders(cfg, h, token);
    assert SingleLineFields(dh) by {
      forall i | 0 <= i < |dh|
        ensures SingleLine(dh[i].name) && SingleLine(dh[i].value)
      {
        if i < |h| {
          assert dh[i] == dh[..|h|][i] == h[i];
        }
      }
    }
  }

  /**
   A header-only original (no blank line) is copied whole into the body of
   the duplicate the plugin sends, where the corrected duplicate has an
   empty body.
   */
  lemma HeaderOnlyDuplicate(cfg: Config, h: Headers, raw: string, token: string)
    requires SingleLineFields(h)
    requires SingleLine(cfg.flagName) && SingleLine(cfg.flagValue)
    requires SingleLine(cfg.tokenName) && SingleLine(token)
    requires |raw| > 0 && SingleLine(raw)
    ensures BodyText(DuplicateText(cfg, h, raw, token)) == raw
    ensures MessageBody(DuplicateTextCorrected(cfg, h, raw, token)) == ""
    ensures DuplicateText(cfg, h, raw, token) != DuplicateTextCorrected(cfg, h, raw, token)
  {
    DuplicateCarriesBody(cfg, h, raw, token);
    HeaderOnlyTextBecomesBody(raw);
  }

  /**
   Two or more token headers present their values joined by a line feed, so
   the presented token is never a single-line issued token: a message with
   a duplicated token header never looks up the record of an issued token.
   */
  lemma SeveralTokenHeadersNeverMatch(cfg: Config, h: Headers, token: string)
    requires |GetAll(h, cfg.tokenName)| >= 2
    requires SingleLine(token)
    ensures LF in PresentedToken(cfg, h).value
    ensures PresentedToken(cfg, h) != Some(token)
    ensures StoreKey(cfg, PresentedToken(cfg, h).value) != StoreKey(cfg, token)
  {
    var vs := GetAll(h, cfg.tokenName);
    var p := PresentedToken(cfg, h).value;
    JoinSeveral(vs, [LF]);
    assert p[|vs[0]|] == (vs[0] + [LF])[|vs[0]|] == LF;
    StoreKeyInjective(cfg, p, token);
  }
}
