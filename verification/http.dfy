/**
  The HTTP boundary the handlers see: a request as raw query text, headers and
  raw body, the error a handler raises, and the web framework's reading of
  query parameters out of the raw query text.

  Query parameters are read the way the framework does it: the query is split
  on '&', empty fields are skipped, each field is split at its first '=' (a
  field without '=' has the empty value), and when a name occurs several times
  the last value wins. Percent-decoding is not modelled: names and values are
  the literal text of the query.
*/
module Http {
  import opened Wrappers

  /** An error raised by a handler: the status code and the detail text. */
  datatype HttpError = HttpError(status: int, detail: string)

  /** What a handler can observe of a request. */
  datatype Request = Request(rawQuery: string, headers: map<string, string>, body: string)

  /** `request.headers.get(name)`. */
  function Header(req: Request, name: string): (v: Option<string>)
    ensures v.Some? <==> name in req.headers
    ensures v.Some? ==> v.value == req.headers[name]
  {
    if name in req.headers then Some(req.headers[name]) else None
  }

  /** The fields of a query joined back with '&'. */
  function Join(parts: seq<string>): string
    requires |parts| >= 1
  {
    if |parts| == 1 then parts[0] else parts[0] + "&" + Join(parts[1..])
  }

  /** The query text cut at every '&'. */
  function Split(s: string): (parts: seq<string>)
    ensures |parts| >= 1
    ensures forall i :: 0 <= i < |parts| ==> '&' !in parts[i]
    ensures Join(parts) == s
    decreases |s|
  {
    if s == [] then [[]]
    else
      var rest := Split(s[1..]);
      if s[0] == '&' then
        assert Join([[]] + rest) == [] + "&" + Join(rest);
        [[]] + rest
      else
        var parts := [[s[0]] + rest[0]] + rest[1..];
        assert parts[1..] == rest[1..];
        assert Join(parts) == s by {
          if |rest| > 1 {
            assert Join(rest) == rest[0] + "&" + Join(rest[1..]);
          }
        }
        parts
  }

  /** One field cut at its first '='. */
  function PairOf(field: string): (kv: (string, string))
    ensures '=' !in kv.0
    ensures '=' in field ==> field == kv.0 + "=" + kv.1
    ensures '=' !in field ==> kv == (field, [])
  {
    if field == [] then ([], [])
    else if field[0] == '=' then ([], field[1..])
    else
      var kv := PairOf(field[1..]);
      assert field == [field[0]] + field[1..];
      assert '=' in field ==> '=' in field[1..];
      ([field[0]] + kv.0, kv.1)
  }

  /** The (name, value) pairs of the non-empty fields, in order. */
  function Fields(parts: seq<string>): (kvs: seq<(string, string)>)
    ensures |kvs| <= |parts|
  {
    if parts == [] then []
    else if parts[0] == [] then Fields(parts[1..])
    else [PairOf(parts[0])] + Fields(parts[1..])
  }

  /** `request.query_params`: the parameters of a raw query, in order. */
  function QueryParams(rawQuery: string): seq<(string, string)>
  {
    Fields(Split(rawQuery))
  }

  /** The value of the last pair named `name`. */
  function Lookup(kvs: seq<(string, string)>, name: string): (v: Option<string>)
    ensures v.None? <==> forall i :: 0 <= i < |kvs| ==> kvs[i].0 != name
    ensures v.Some? ==> exists i :: 0 <= i < |kvs| && kvs[i] == (name, v.value)
                                    && forall j :: i < j < |kvs| ==> kvs[j].0 != name
  {
    if kvs == [] then None
    else if kvs[|kvs| - 1].0 == name then Some(kvs[|kvs| - 1].1)
    else Lookup(kvs[..|kvs| - 1], name)
  }

  /** `request.query_params.get(name)`. */
  function QueryGet(rawQuery: string, name: string): Option<string>
  {
    Lookup(QueryParams(rawQuery), name)
  }

  /** A query built from pairs: the inverse of `QueryParams` on well-formed pairs. */
  function Encode(kvs: seq<(string, string)>): string
  {
    if kvs == [] then [] else Join(EncodeFields(kvs))
  }

  function EncodeFields(kvs: seq<(string, string)>): (parts: seq<string>)
    ensures |parts| == |kvs|
  {
    if kvs == [] then [] else [kvs[0].0 + "=" + kvs[0].1] + EncodeFields(kvs[1..])
  }

  /** Pairs that survive the trip through query text unchanged. */
  predicate WellFormedPairs(kvs: seq<(string, string)>)
  {
    forall i :: 0 <= i < |kvs| ==> '&' !in kvs[i].0 && '&' !in kvs[i].1 && '=' !in kvs[i].0
  }

  /** Splitting joined fields gives the fields back. */
  lemma {:induction false} SplitJoin(parts: seq<string>)
    requires |parts| >= 1
    requires forall i :: 0 <= i < |parts| ==> '&' !in parts[i]
    ensures Split(Join(parts)) == parts
    decreases |parts|
  {
    if |parts| == 1 {
      SplitNoAmp(parts[0]);
    } else {
      SplitJoin(parts[1..]);
      SplitAmp(parts[0], Join(parts[1..]));
    }
  }

  /** Text without '&' is a single field. */
  lemma {:induction false} SplitNoAmp(s: string)
    requires '&' !in s
    ensures Split(s) == [s]
    decreases |s|
  {
    if s != [] {
      SplitNoAmp(s[1..]);
    }
  }

  /** A '&' after a field without '&' ends that field. */
  lemma {:induction false} SplitAmp(x: string, y: string)
    requires '&' !in x
    ensures Split(x + "&" + y) == [x] + Split(y)
    decreases |x|
  {
    if x == [] {
      assert x + "&" + y == "&" + y;
      assert ("&" + y)[1..] == y;
    } else {
      assert (x + "&" + y)[1..] == x[1..] + "&" + y;
      SplitAmp(x[1..], y);
      assert [x[0]] + x[1..] == x;
    }
  }

  /** Cutting `k=v` at its first '=' gives `(k, v)` back when `k` has no '='. */
  lemma PairOfField(k: string, v: string)
    requires '=' !in k
    ensures PairOf(k + "=" + v) == (k, v)
  {
    var f := k + "=" + v;
    assert f[|k|] == '=';
    var kv := PairOf(f);
    EqualsCut(k, v, kv.0, kv.1);
  }

  /** `k + "=" + v` has one decomposition with `k` free of '='. */
  lemma EqualsCut(k: string, v: string, k': string, v': string)
    requires '=' !in k && '=' !in k'
    requires k + "=" + v == k' + "=" + v'
    ensures k == k' && v == v'
  {
    var s := k + "=" + v;
    assert s[|k|] == '=';
    assert s[|k'|] == '=';
    if |k| < |k'| {
      assert false;
    } else if |k'| < |k| {
      assert false;
    }
    assert k == s[..|k|] && k' == s[..|k'|];
    assert v == s[|k| + 1..] && v' == s[|k'| + 1..];
  }

  /** Reading the parameters of an encoded query gives the pairs back. */
  lemma {:induction false} QueryParamsEncode(kvs: seq<(string, string)>)
    requires WellFormedPairs(kvs)
    ensures QueryParams(Encode(kvs)) == kvs
  {
    if kvs == [] {
      assert Split([]) == [[]];
    } else {
      var parts := EncodeFields(kvs);
      EncodeFieldsShape(kvs);
      SplitJoin(parts);
      FieldsEncoded(kvs);
    }
  }

  lemma {:induction false} EncodeFieldsShape(kvs: seq<(string, string)>)
    requires WellFormedPairs(kvs)
    ensures forall i :: 0 <= i < |kvs| ==> EncodeFields(kvs)[i] == kvs[i].0 + "=" + kvs[i].1
    ensures forall i :: 0 <= i < |kvs| ==> '&' !in EncodeFields(kvs)[i]
    decreases |kvs|
  {
    if kvs != [] {
      EncodeFieldsShape(kvs[1..]);
      forall i | 0 <= i < |kvs|
        ensures '&' !in EncodeFields(kvs)[i]
      {
        var f := EncodeFields(kvs)[i];
        assert f == kvs[i].0 + "=" + kvs[i].1;
      }
    }
  }

  lemma {:induction false} FieldsEncoded(kvs: seq<(string, string)>)
    requires WellFormedPairs(kvs)
    ensures Fields(EncodeFields(kvs)) == kvs
    decreases |kvs|
  {
    if kvs != [] {
      var parts := EncodeFields(kvs);
      assert parts[1..] == EncodeFields(kvs[1..]);
      assert parts[0] == kvs[0].0 + "=" + kvs[0].1;
      assert parts[0][|kvs[0].0|] == '=';
      PairOfField(kvs[0].0, kvs[0].1);
      FieldsEncoded(kvs[1..]);
    }
  }

  /** Joining one more field appends `&` and the field. */
  lemma {:induction false} JoinSnoc(parts: seq<string>, p: string)
    requires |parts| >= 1
    ensures Join(parts + [p]) == Join(parts) + "&" + p
    decreases |parts|
  {
    var all := parts + [p];
    assert all[1..] == parts[1..] + [p];
    if |parts| == 1 {
      assert all[1..] == [p];
    } else {
      JoinSnoc(parts[1..], p);
      calc {
        Join(all);
        parts[0] + "&" + Join(parts[1..] + [p]);
        parts[0] + "&" + (Join(parts[1..]) + "&" + p);
        (parts[0] + "&" + Join(parts[1..])) + "&" + p;
      }
    }
  }

  lemma {:induction false} EncodeFieldsSnoc(kvs: seq<(string, string)>, kv: (string, string))
    ensures EncodeFields(kvs + [kv]) == EncodeFields(kvs) + [kv.0 + "=" + kv.1]
    decreases |kvs|
  {
    if kvs == [] {
      assert kvs + [kv] == [kv];
    } else {
      assert (kvs + [kv])[1..] == kvs[1..] + [kv];
      EncodeFieldsSnoc(kvs[1..], kv);
    }
  }

  /** Appending a pair to a non-empty query appends `&name=value` to its text. */
  lemma EncodeSnoc(kvs: seq<(string, string)>, kv: (string, string))
    requires kvs != []
    ensures Encode(kvs + [kv]) == Encode(kvs) + "&" + kv.0 + "=" + kv.1
  {
    EncodeFieldsSnoc(kvs, kv);
    JoinSnoc(EncodeFields(kvs), kv.0 + "=" + kv.1);
  }

  /** A pair appended last wins the lookup of its own name ... */
  lemma LookupSnocSame(kvs: seq<(string, string)>, kv: (string, string))
    ensures Lookup(kvs + [kv], kv.0) == Some(kv.1)
  {
  }

  /** ... and is skipped by the lookup of any other name. */
  lemma LookupSnocOther(kvs: seq<(string, string)>, kv: (string, string), name: string)
    requires name != kv.0
    ensures Lookup(kvs + [kv], name) == Lookup(kvs, name)
  {
    assert (kvs + [kv])[..|kvs|] == kvs;
  }

  /** An encoded non-empty query starts with a name or '=', never with '&'. */
  lemma EncodeStart(kvs: seq<(string, string)>)
    requires kvs != [] && WellFormedPairs(kvs)
    ensures Encode(kvs) != [] && Encode(kvs)[0] != '&'
  {
    var parts := EncodeFields(kvs);
    var f := kvs[0].0 + "=" + kvs[0].1;
    assert parts[0] == f;
    if |parts| > 1 {
      assert Join(parts) == f + ("&" + Join(parts[1..]));
    }
    assert Join(parts)[0] == f[0];
    if kvs[0].0 != [] {
      assert f[0] == kvs[0].0[0];
    }
  }
}
