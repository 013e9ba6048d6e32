/**
  Whole-handshake properties: a query signed by appending the signature
  parameter is recovered exactly by the cleaning when the signature holds no
  '&' and the pair `shopware-shop-signature=<sig>` does not already occur in
  the query (when it does, that copy is cut as well), and the sequence
  registration, confirmation, connect goes through with the issued secret and
  is refused with the app secret.
*/
module Scenario {
  import opened Wrappers
  import opened Http
  import opened Removal
  import opened Signature
  import opened Models
  import opened Handshake

  /** The query a platform sends to register, as pairs. */
  function RegistrationParams(id: string, url: string, ts: string): seq<(string, string)>
  {
    [(SHOP_ID_PARAM, id), (SHOP_URL_PARAM, url), (TIMESTAMP_PARAM, ts)]
  }

  /** A query with the signature appended as its last parameter. */
  function WithSignature(kvs: seq<(string, string)>, sig: string): string
  {
    Encode(kvs + [(SIGNATURE_PARAM, sig)])
  }

  lemma SignatureParamWellFormed()
    ensures '&' !in SIGNATURE_PARAM && '=' !in SIGNATURE_PARAM
  {
    forall i | 0 <= i < |SIGNATURE_PARAM|
      ensures SIGNATURE_PARAM[i] != '&' && SIGNATURE_PARAM[i] != '='
    {
    }
  }

  /**
    Appending `&shopware-shop-signature=<sig>` to a query and then reading it
    back: the parameters are the original ones plus the signature, and the
    cleaning gives back exactly the original query text.
  */
  lemma SignedQueryRoundTrip(kvs: seq<(string, string)>, sig: string)
    requires WellFormedPairs(kvs) && '&' !in sig
    requires !Contains(Encode(kvs), Needle(sig))
    ensures QueryParams(WithSignature(kvs, sig)) == kvs + [(SIGNATURE_PARAM, sig)]
    ensures QueryGet(WithSignature(kvs, sig), SIGNATURE_PARAM) == Some(sig)
    ensures Clean(WithSignature(kvs, sig), sig) == Encode(kvs)
  {
    var all := kvs + [(SIGNATURE_PARAM, sig)];
    assert WellFormedPairs(all) by {
      SignatureParamWellFormed();
      forall i | 0 <= i < |all|
        ensures '&' !in all[i].0 && '&' !in all[i].1 && '=' !in all[i].0
      {
        if i < |kvs| { assert all[i] == kvs[i]; }
      }
    }
    assert QueryParams(WithSignature(kvs, sig)) == all by {
      QueryParamsEncode(all);
    }
    assert QueryGet(WithSignature(kvs, sig), SIGNATURE_PARAM) == Some(sig) by {
      LookupSnocSame(kvs, (SIGNATURE_PARAM, sig));
    }
    if kvs == [] {
      assert WithSignature(kvs, sig) == SIGNATURE_PARAM + "=" + sig by {
        assert EncodeFields(all) == [SIGNATURE_PARAM + "=" + sig];
      }
      CleanExampleOnly(sig);
    } else {
      CleanAfterSignedPrefix(kvs, sig);
    }
  }

  /** The cleaning half of `SignedQueryRoundTrip` for a non-empty query. */
  lemma CleanAfterSignedPrefix(kvs: seq<(string, string)>, sig: string)
    requires kvs != [] && WellFormedPairs(kvs) && '&' !in sig
    requires !Contains(Encode(kvs), Needle(sig))
    ensures Clean(WithSignature(kvs, sig), sig) == Encode(kvs)
  {
    assert Clean(WithSignature(kvs, sig), sig) == Encode(kvs) by {
      EncodeSnoc(kvs, (SIGNATURE_PARAM, sig));
      EncodeStart(kvs);
      SignedText(Encode(kvs), sig);
      ShortDoesNotContain("", Needle(sig));
      CleanAfterPrefix(Encode(kvs), "", sig);
    }
  }

  /**
    The cleaning cuts every literal copy of the pair, also one that sits inside
    another parameter's value: signing the query `y=shopware-shop-signature=<sig>`
    and cleaning gives `y=`, not the query that was signed.
  */
  lemma CleanCutsCopyInsideValue(sig: string)
    requires '&' !in sig
    ensures var q := Encode([("y", Needle(sig))]);
            && q == "y=" + Needle(sig)
            && Clean(WithSignature([("y", Needle(sig))], sig), sig) == "y="
            && Clean(WithSignature([("y", Needle(sig))], sig), sig) != q
  {
    var n := Needle(sig);
    NeedleAmpFree(sig);
    SignedValueText(sig);
    RemoveTokenAfterName(n);
    RemoveAmpTokenAlone(n, []);
    RemoveConcat("y=" + n, "&" + n, n);
  }

  /** The query carrying the pair as a value, signed: `y=<pair>&<pair>`. */
  lemma SignedValueText(sig: string)
    ensures Encode([("y", Needle(sig))]) == "y=" + Needle(sig)
    ensures WithSignature([("y", Needle(sig))], sig) == ("y=" + Needle(sig)) + ("&" + Needle(sig))
  {
    var n := Needle(sig);
    var kvs := [("y", n)];
    assert kvs[1..] == [];
    assert EncodeFields(kvs) == [kvs[0].0 + "=" + kvs[0].1] + EncodeFields([]);
    assert Encode(kvs) == "y=" + n;
    EncodeSnoc(kvs, (SIGNATURE_PARAM, sig));
  }

  /** Removal keeps `y=` and cuts the token that follows it. */
  lemma RemoveTokenAfterName(n: string)
    requires n != [] && n[0] == 's'
    ensures Remove("y=" + n, n) == "y="
  {
    var a := "y=" + n;
    FirstCharMismatch(a, "&" + n);
    FirstCharMismatch(a, n);
    assert a[1..] == "=" + n;
    FirstCharMismatch(a[1..], "&" + n);
    FirstCharMismatch(a[1..], n);
    assert a[1..][1..] == n;
    assert Remove(n, n) == [] by {
      assert StartsWith(n, n);
      assert n[|n|..] == [];
      assert |"&" + n| > |n|;
    }
  }

  /** Rewriting step: the appended signature pair is `&` followed by the needle and nothing after it. */
  lemma SignedText(q: string, sig: string)
    ensures q + "&" + SIGNATURE_PARAM + "=" + sig == q + "&" + Needle(sig) + ""
  {
  }

  /** The registration parameters survive the trip through query text. */
  lemma RegistrationParamsWellFormed(id: string, url: string, ts: string)
    requires '&' !in id && '&' !in url && '&' !in ts
    ensures WellFormedPairs(RegistrationParams(id, url, ts))
  {
    var kvs := RegistrationParams(id, url, ts);
    forall i | 0 <= i < |kvs|
      ensures '&' !in kvs[i].0 && '=' !in kvs[i].0
    {
      var k := kvs[i].0;
      forall j | 0 <= j < |k|
        ensures k[j] != '&' && k[j] != '='
      {
      }
    }
  }

  /** Reading the three registration parameters back. */
  lemma RegistrationParamsRead(id: string, url: string, ts: string, extra: seq<(string, string)>)
    requires '&' !in id && '&' !in url && '&' !in ts
    requires |extra| <= 1 && forall i :: 0 <= i < |extra| ==> extra[i].0 == SIGNATURE_PARAM && '&' !in extra[i].1
    ensures var q := Encode(RegistrationParams(id, url, ts) + extra);
            && QueryGet(q, SHOP_ID_PARAM) == Some(id)
            && QueryGet(q, SHOP_URL_PARAM) == Some(url)
            && QueryGet(q, TIMESTAMP_PARAM) == Some(ts)
  {
    var kvs := RegistrationParams(id, url, ts);
    var all := kvs + extra;
    assert WellFormedPairs(all) by {
      RegistrationParamsWellFormed(id, url, ts);
      SignatureParamWellFormed();
      forall i | 0 <= i < |all|
        ensures '&' !in all[i].0 && '&' !in all[i].1 && '=' !in all[i].0
      {
        if i < |kvs| { assert all[i] == kvs[i]; } else { assert all[i] == extra[i - |kvs|]; }
      }
    }
    assert QueryParams(Encode(all)) == all by {
      QueryParamsEncode(all);
    }
    assert Lookup(all, SHOP_ID_PARAM) == Some(id) && Lookup(all, SHOP_URL_PARAM) == Some(url)
        && Lookup(all, TIMESTAMP_PARAM) == Some(ts) by {
      if extra != [] {
        assert all == kvs + [extra[0]];
        LookupSnocOther(kvs, extra[0], SHOP_ID_PARAM);
        LookupSnocOther(kvs, extra[0], SHOP_URL_PARAM);
        LookupSnocOther(kvs, extra[0], TIMESTAMP_PARAM);
      } else {
        assert all == kvs;
      }
      RegistrationParamsLookup(id, url, ts);
    }
  }

  lemma RegistrationParamsLookup(id: string, url: string, ts: string)
    ensures var kvs := RegistrationParams(id, url, ts);
            && Lookup(kvs, SHOP_ID_PARAM) == Some(id)
            && Lookup(kvs, SHOP_URL_PARAM) == Some(url)
            && Lookup(kvs, TIMESTAMP_PARAM) == Some(ts)
  {
    var two := [(SHOP_ID_PARAM, id), (SHOP_URL_PARAM, url)];
    assert RegistrationParams(id, url, ts) == two + [(TIMESTAMP_PARAM, ts)];
    LookupSnocSame(two, (TIMESTAMP_PARAM, ts));
    LookupSnocOther(two, (TIMESTAMP_PARAM, ts), SHOP_ID_PARAM);
    LookupSnocOther(two, (TIMESTAMP_PARAM, ts), SHOP_URL_PARAM);
    assert two == [(SHOP_ID_PARAM, id)] + [(SHOP_URL_PARAM, url)];
    LookupSnocSame([(SHOP_ID_PARAM, id)], (SHOP_URL_PARAM, url));
    LookupSnocOther([(SHOP_ID_PARAM, id)], (SHOP_URL_PARAM, url), SHOP_ID_PARAM);
  }

  /** The embedded signature is well-formed for the query it signs. */
  predicate UsableSignature(q: string, sig: string)
  {
    sig != [] && '&' !in sig && !Contains(q, Needle(sig))
  }

  /**
    Connect with the registration parameters and the embedded signature made
    with `key`: it shows the shop when `key`'s digest of the parameters equals
    the shop secret's, and is refused as an invalid signature otherwise.
  */
  lemma ConnectWithSignedQuery(h: HmacFn, store: Store, id: string, url: string, ts: string, key: string)
    requires '&' !in id && '&' !in url && '&' !in ts && id != [] && url != []
    requires id in store
    requires UsableSignature(Encode(RegistrationParams(id, url, ts)), h(key, Encode(RegistrationParams(id, url, ts))))
    ensures var kvs := RegistrationParams(id, url, ts);
            var q := Encode(kvs);
            var r := Connect(h, store, Request(WithSignature(kvs, h(key, q)), map[], []));
            && (h(key, q) == h(store[id].shopSecret, q) ==> r == Success(ConnectPage(store[id])))
            && (h(key, q) != h(store[id].shopSecret, q) ==> r == Failure(INVALID_SIGNATURE))
  {
    var kvs := RegistrationParams(id, url, ts);
    var q := Encode(kvs);
    var sig := h(key, q);
    var req := Request(WithSignature(kvs, sig), map[], []);
    assert HasConnectParams(req) && QueryGet(req.rawQuery, SHOP_ID_PARAM) == Some(id) by {
      SignatureParamWellFormed();
      RegistrationParamsRead(id, url, ts, [(SIGNATURE_PARAM, sig)]);
    }
    assert QueryGet(req.rawQuery, SIGNATURE_PARAM) == Some(sig) && Clean(req.rawQuery, sig) == q by {
      RegistrationParamsWellFormed(id, url, ts);
      SignedQueryRoundTrip(kvs, sig);
    }
  }

  /**
    The handshake end to end: a registration signed with the app secret
    issues `s1` and the proof; a confirmation body signed with `s1` stores the
    credentials and the time; a connect signed with `s1` then shows the
    confirmed shop, while the same connect signed with the app secret is
    refused.
  */
  lemma HandshakeEndToEnd(
    h: HmacFn, store: Store, id: string, url: string, ts: string, s1: string,
    body: string, apiKey: string, secretKey: string, now: Instant)
    requires '&' !in id && '&' !in url && '&' !in ts && id != [] && url != []
    requires var q := Encode(RegistrationParams(id, url, ts));
             UsableSignature(q, h(s1, q)) && UsableSignature(q, h(APP_SECRET, q))
    ensures var kvs := RegistrationParams(id, url, ts);
            var q := Encode(kvs);
            var o1 := Registration(h, store, Request(q, map[APP_SIGNATURE_HEADER := h(APP_SECRET, q)], []), s1);
            var conf := Request([], map[SHOP_SIGNATURE_HEADER := h(s1, body)], body);
            var o2 := Confirmation(h, o1.store, conf, ConfirmationRequest(id, url, apiKey, secretKey, ts), now);
            && o1.reply == Success(RegistrationReply(Proof(h, id, url), s1, CONFIRMATION_URL))
            && o2.reply.Success?
            && id in o2.store
            && o2.store[id].shopSecret == s1
            && o2.store[id].apiKey == Some(apiKey)
            && o2.store[id].secretKey == Some(secretKey)
            && o2.store[id].confirmedAt == Some(now)
            && Connect(h, o2.store, Request(WithSignature(kvs, h(s1, q)), map[], []))
                 == Success(ConnectPage(o2.store[id]))
            && (h(APP_SECRET, q) != h(s1, q) ==>
                 Connect(h, o2.store, Request(WithSignature(kvs, h(APP_SECRET, q)), map[], []))
                   == Failure(INVALID_SIGNATURE))
  {
    var kvs := RegistrationParams(id, url, ts);
    var q := Encode(kvs);
    var reg := Request(q, map[APP_SIGNATURE_HEADER := h(APP_SECRET, q)], []);
    assert HasRegistrationParams(reg) && QueryGet(q, SHOP_ID_PARAM) == Some(id) && QueryGet(q, SHOP_URL_PARAM) == Some(url) by {
      RegistrationParamsRead(id, url, ts, []);
      assert kvs + [] == kvs;
    }
    var o1 := Registration(h, store, reg, s1);
    assert o1.reply.Success?;
    var o2 := Confirmation(h, o1.store, Request([], map[SHOP_SIGNATURE_HEADER := h(s1, body)], body),
                           ConfirmationRequest(id, url, apiKey, secretKey, ts), now);
    assert o2.reply.Success?;
    ConnectWithSignedQuery(h, o2.store, id, url, ts, s1);
    ConnectWithSignedQuery(h, o2.store, id, url, ts, APP_SECRET);
  }
}
