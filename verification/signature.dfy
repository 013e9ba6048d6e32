/**
  Signature checks of the request handlers (utils.py): computing an HMAC,
  comparing it with a received signature, and the three ways a request is
  reduced to the exact text that was signed.

  The keyed hash (HMAC-SHA256 as in section 2 of RFC 2104, hex-encoded) is not
  modelled: every operation takes it as a parameter `h`, a deterministic
  function from (key, data) to a digest string. The comparison is plain
  equality; its constant-time behaviour is not modelled.
*/
module Signature {
  import opened Wrappers
  import opened Http
  import opened Removal

  /** A keyed hash: `h(key, data)` is the hex digest of `data` under `key`. */
  type HmacFn = (string, string) -> string

  /** The query parameter that carries an embedded signature. */
  const SIGNATURE_PARAM := "shopware-shop-signature"

  const INVALID_SIGNATURE := HttpError(401, "Invalid signature")

  /** The error for a missing signature header, as the header check over the raw query (registration) words it. */
  function MissingHeader(name: string): HttpError
  {
    HttpError(400, "Missing header: " + name)
  }

  /** The error for a missing signature header, as the body check words it (no colon). */
  function MissingBodyHeader(name: string): HttpError
  {
    HttpError(400, "Missing header " + name)
  }

  const MISSING_SIGNATURE_PARAM := HttpError(400, "Missing query param: " + SIGNATURE_PARAM)

  /** `generate_hmac(data, key)`. */
  function GenerateHmac(h: HmacFn, data: string, key: string): string
  {
    h(key, data)
  }

  /** `verify_hmac`: accept exactly the signature the key produces for the data. */
  function VerifyHmac(h: HmacFn, received: string, data: string, key: string): (r: Result<(), HttpError>)
    ensures r.Success? <==> received == GenerateHmac(h, data, key)
    ensures r.Failure? ==> r.error == INVALID_SIGNATURE
  {
    if GenerateHmac(h, data, key) == received then Success(()) else Failure(INVALID_SIGNATURE)
  }

  /** A signature produced with the key always passes the check with that key. */
  lemma VerifyGenerated(h: HmacFn, data: string, key: string)
    ensures VerifyHmac(h, GenerateHmac(h, data, key), data, key) == Success(())
  {
  }

  /** At most one signature passes for given data and key. */
  lemma VerifyUnique(h: HmacFn, s1: string, s2: string, data: string, key: string)
    requires VerifyHmac(h, s1, data, key).Success?
    requires VerifyHmac(h, s2, data, key).Success?
    ensures s1 == s2
  {
  }

  /**
    `verify_header_signature`: the signature is read from a header and the
    signed text is the raw query, unchanged. A missing header is rejected
    before any digest is computed.
  */
  function VerifyHeaderSignature(h: HmacFn, req: Request, key: string, headerName: string): (r: Result<(), HttpError>)
    ensures Header(req, headerName).None? ==> r == Failure(MissingHeader(headerName))
    ensures r.Success? <==> Header(req, headerName).Some? && Header(req, headerName).value == h(key, req.rawQuery)
    ensures r.Failure? && Header(req, headerName).Some? ==> r.error == INVALID_SIGNATURE
  {
    match Header(req, headerName)
    case None => Failure(MissingHeader(headerName))
    case Some(sig) => VerifyHmac(h, sig, req.rawQuery, key)
  }

  /**
    `verify_body_signature`: the signature is read from a header and the
    signed text is the raw body, unchanged.
  */
  function VerifyBodySignature(h: HmacFn, req: Request, key: string, headerName: string): (r: Result<(), HttpError>)
    ensures Header(req, headerName).None? ==> r == Failure(MissingBodyHeader(headerName))
    ensures r.Success? <==> Header(req, headerName).Some? && Header(req, headerName).value == h(key, req.body)
    ensures r.Failure? && Header(req, headerName).Some? ==> r.error == INVALID_SIGNATURE
  {
    match Header(req, headerName)
    case None => Failure(MissingBodyHeader(headerName))
    case Some(sig) => VerifyHmac(h, sig, req.body, key)
  }

  /** The literal text `shopware-shop-signature=<sig>` that is cut out of the query. */
  function Needle(sig: string): (n: string)
    ensures n != [] && n[0] == 's'
  {
    SIGNATURE_PARAM + "=" + sig
  }

  /** One leading '&' is dropped, if there is one. */
  function StripLeadingAmp(s: string): (r: string)
    ensures r == s || "&" + r == s
    ensures r != s <==> s != [] && s[0] == '&'
  {
    if s != [] && s[0] == '&' then s[1..] else s
  }

  /**
    The text that was signed, recovered from a query that carries the
    signature `sig` as a parameter: every `&shopware-shop-signature=<sig>` or
    `shopware-shop-signature=<sig>` is deleted, then one leading '&' is
    stripped.
  */
  function Clean(rawQuery: string, sig: string): (c: string)
    ensures |c| <= |rawQuery|
    ensures Contains(rawQuery, Needle(sig)) ==> |c| < |rawQuery|
    ensures !Contains(rawQuery, Needle(sig)) ==> c == StripLeadingAmp(rawQuery)
    ensures var r := Remove(rawQuery, Needle(sig));
            (c == r || "&" + c == r) && (c != r ==> r != [] && r[0] == '&')
  {
    RemoveChangesIffContains(rawQuery, Needle(sig));
    StripLeadingAmp(Remove(rawQuery, Needle(sig)))
  }

  /**
    `verify_query_param_signature`: the signature is the query's own
    `shopware-shop-signature` parameter; an absent or empty one is rejected
    before any cleaning or digest, otherwise the digest is taken over the
    cleaned query.
  */
  function VerifyQueryParamSignature(h: HmacFn, req: Request, key: string): (r: Result<(), HttpError>)
    ensures var sig := QueryGet(req.rawQuery, SIGNATURE_PARAM);
            (sig.None? || sig.value == []) ==> r == Failure(MISSING_SIGNATURE_PARAM)
    ensures var sig := QueryGet(req.rawQuery, SIGNATURE_PARAM);
            r.Success? <==> sig.Some? && sig.value != [] && sig.value == h(key, Clean(req.rawQuery, sig.value))
    ensures var sig := QueryGet(req.rawQuery, SIGNATURE_PARAM);
            r.Failure? && sig.Some? && sig.value != [] ==> r.error == INVALID_SIGNATURE
  {
    match QueryGet(req.rawQuery, SIGNATURE_PARAM)
    case None => Failure(MISSING_SIGNATURE_PARAM)
    case Some(sig) =>
      if sig == [] then Failure(MISSING_SIGNATURE_PARAM)
      else VerifyHmac(h, sig, Clean(req.rawQuery, sig), key)
  }

  /** The cleaned query keeps the remaining characters of the raw query, in order. */
  lemma CleanIsSubsequence(rawQuery: string, sig: string)
    ensures Subsequence(Clean(rawQuery, sig), rawQuery)
  {
    var r := Remove(rawQuery, Needle(sig));
    RemoveIsSubsequence(rawQuery, Needle(sig));
    if r != [] && r[0] == '&' {
      SubsequenceDropFirst(r, rawQuery);
    }
  }

  lemma {:induction false} SubsequenceDropFirst(a: string, b: string)
    requires a != [] && Subsequence(a, b)
    ensures Subsequence(a[1..], b)
    decreases |b|
  {
    if b != [] {
      if a[0] == b[0] && Subsequence(a[1..], b[1..]) {
        SubsequenceOfSuffix(a[1..], b, 1);
      } else {
        SubsequenceDropFirst(a, b[1..]);
        SubsequenceOfSuffix(a[1..], b, 1);
      }
    }
  }

  /**
    The signature the parameter reader finds is itself a literal piece of
    the query, so the cleaning always cuts something out: the cleaned text is
    strictly shorter than the raw query.
  */
  lemma FoundSignatureIsExcised(rawQuery: string)
    requires QueryGet(rawQuery, SIGNATURE_PARAM).Some?
    requires QueryGet(rawQuery, SIGNATURE_PARAM).value != []
    ensures var sig := QueryGet(rawQuery, SIGNATURE_PARAM).value;
            Contains(rawQuery, Needle(sig)) && |Clean(rawQuery, sig)| < |rawQuery|
  {
    var sig := QueryGet(rawQuery, SIGNATURE_PARAM).value;
    var parts := Split(rawQuery);
    var k := FieldIndex(parts, (SIGNATURE_PARAM, sig));
    var f := parts[k];
    assert PairOf(f).1 == sig != [];
    assert f == Needle(sig);
    JoinContainsPart(parts, k);
  }

  /** Every parsed pair comes from a field of the split query. */
  lemma {:induction false} FieldIndex(parts: seq<string>, kv: (string, string)) returns (k: nat)
    requires kv in Fields(parts)
    ensures k < |parts| && parts[k] != [] && PairOf(parts[k]) == kv
    decreases |parts|
  {
    if parts[0] != [] && PairOf(parts[0]) == kv {
      k := 0;
    } else {
      if parts[0] != [] {
        assert Fields(parts) == [PairOf(parts[0])] + Fields(parts[1..]);
      }
      var k' := FieldIndex(parts[1..], kv);
      k := k' + 1;
    }
  }

  /** Joined text contains each of its fields. */
  lemma {:induction false} JoinContainsPart(parts: seq<string>, k: nat)
    requires k < |parts|
    ensures Contains(Join(parts), parts[k])
    decreases |parts|
  {
    if |parts| == 1 {
      ContainsInfix([], parts[0], []);
      assert [] + parts[0] + [] == parts[0];
    } else if k == 0 {
      ContainsInfix([], parts[0], "&" + Join(parts[1..]));
      assert [] + parts[0] + ("&" + Join(parts[1..])) == Join(parts);
    } else {
      JoinContainsPart(parts[1..], k - 1);
      ContainsInSuffix(parts[0] + "&", Join(parts[1..]), parts[k]);
    }
  }

  lemma {:induction false} ContainsInSuffix(x: string, y: string, n: string)
    requires Contains(y, n)
    ensures Contains(x + y, n)
    decreases |x|
  {
    if x != [] {
      assert (x + y)[1..] == x[1..] + y;
      ContainsInSuffix(x[1..], y, n);
    } else {
      assert x + y == y;
    }
  }

  /** The cut-out text holds no '&' when the signature holds none. */
  lemma NeedleAmpFree(sig: string)
    requires '&' !in sig
    ensures '&' !in Needle(sig)
  {
    var n := Needle(sig);
    forall i | 0 <= i < |n|
      ensures n[i] != '&'
    {
      if i > |SIGNATURE_PARAM| {
        assert n[i] == sig[i - |SIGNATURE_PARAM| - 1];
      }
    }
  }

  /**
    The signature appended as the last parameter of a query (or in the
    middle, before further `&`-separated parameters) is cut out together with
    its '&', leaving exactly the rest of the query.
  */
  lemma CleanAfterPrefix(a: string, c: string, sig: string)
    requires '&' !in sig
    requires a != [] && a[0] != '&'
    requires !Contains(a, Needle(sig)) && !Contains(c, Needle(sig))
    requires c == [] || c[0] == '&'
    ensures Clean(a + "&" + Needle(sig) + c, sig) == a + c
  {
    NeedleAmpFree(sig);
    RemoveAfterPrefix(a, c, Needle(sig));
  }

  /**
    The signature as the first parameter is cut out, and the '&' that
    separated it from the rest is stripped.
  */
  lemma CleanAtFront(c: string, sig: string)
    requires !Contains(c, Needle(sig))
    requires c == [] || c[0] == '&'
    ensures Clean(Needle(sig) + c, sig) == if c == [] then [] else c[1..]
  {
    var n := Needle(sig);
    var s := n + c;
    assert s[0] == 's';
    FirstCharMismatch(s, "&" + n);
    assert StartsWith(s, n) by { assert s[..|n|] == n; }
    assert s[|n|..] == c;
    RemoveChangesIffContains(c, n);
    calc {
      Remove(s, n);
      Remove(c, n);
      c;
    }
  }

  /** `a=1&P=S&b=2` is cleaned to `a=1&b=2`, for any signature `S` without '&'. */
  lemma CleanExampleMiddle(sig: string)
    requires '&' !in sig
    ensures Clean("a=1&" + SIGNATURE_PARAM + "=" + sig + "&b=2", sig) == "a=1&b=2"
  {
    assert "a=1&" + SIGNATURE_PARAM + "=" + sig + "&b=2" == "a=1" + "&" + Needle(sig) + "&b=2";
    ShortDoesNotContain("a=1", Needle(sig));
    ShortDoesNotContain("&b=2", Needle(sig));
    CleanAfterPrefix("a=1", "&b=2", sig);
  }

  /** `P=S&b=2` is cleaned to `b=2`. */
  lemma CleanExampleFirst(sig: string)
    ensures Clean(SIGNATURE_PARAM + "=" + sig + "&b=2", sig) == "b=2"
  {
    assert SIGNATURE_PARAM + "=" + sig + "&b=2" == Needle(sig) + "&b=2";
    ShortDoesNotContain("&b=2", Needle(sig));
    CleanAtFront("&b=2", sig);
  }

  /** `a=1&P=S` is cleaned to `a=1`, for any signature `S` without '&'. */
  lemma CleanExampleLast(sig: string)
    requires '&' !in sig
    ensures Clean("a=1&" + SIGNATURE_PARAM + "=" + sig, sig) == "a=1"
  {
    assert "a=1&" + SIGNATURE_PARAM + "=" + sig == "a=1" + "&" + Needle(sig) + "";
    ShortDoesNotContain("a=1", Needle(sig));
    ShortDoesNotContain("", Needle(sig));
    CleanAfterPrefix("a=1", "", sig);
  }

  /** `P=S` alone is cleaned to the empty query. */
  lemma CleanExampleOnly(sig: string)
    ensures Clean(SIGNATURE_PARAM + "=" + sig, sig) == ""
  {
    assert SIGNATURE_PARAM + "=" + sig == Needle(sig) + "";
    ShortDoesNotContain("", Needle(sig));
    CleanAtFront("", sig);
  }
}
