/** The upstream request link: the query of a fixed URL (as net/url's
    Values), two of its values replaced, and Values.Encode writing the
    pairs in byte order of their keys. */
module UrlQuery {
  import opened GoStrings

  /** url.Values: every key with its list of values. */
  type Values = map<string, seq<string>>

  /** A byte QueryEscape leaves alone: a letter, a digit, or one of - _ . ~ */
  predicate Unreserved(c: char)
  {
    'a' <= c <= 'z' || 'A' <= c <= 'Z' || '0' <= c <= '9' || c == '-' || c == '_' || c == '.' || c == '~'
  }

  /** Text that url.QueryEscape returns unchanged. */
  predicate NeedsNoEscape(s: string)
  {
    forall k :: 0 <= k < |s| ==> Unreserved(s[k])
  }

  predicate StrictlySorted(keys: seq<string>)
  {
    forall i, j :: 0 <= i < j < |keys| ==> Less(keys[i], keys[j])
  }

  /** `k` is the least element of `keys`. */
  predicate IsLeast(k: string, keys: set<string>)
  {
    k in keys && forall j :: j in keys && j != k ==> Less(k, j)
  }

  lemma {:induction false} LeastExists(keys: set<string>)
    requires keys != {}
    ensures exists k :: IsLeast(k, keys)
    decreases |keys|
  {
    var x :| x in keys;
    var rest := keys - {x};
    if rest == {} {
      assert keys == {x};
      assert IsLeast(x, keys);
    } else {
      LeastExists(rest);
      var m :| IsLeast(m, rest);
      LessIsStrictTotal();
      if Less(x, m) {
        forall j | j in keys && j != x ensures Less(x, j) {
          if j != m {
            LessTransitive(x, m, j);
          }
        }
        assert IsLeast(x, keys);
      } else {
        assert IsLeast(m, keys);
      }
    }
  }

  /** The keys of a Values in the order Encode visits them (sort.Strings):
      every key once, in increasing byte order. */
  function SortedKeys(keys: set<string>): (r: seq<string>)
    ensures StrictlySorted(r)
    ensures forall k :: k in r <==> k in keys
    ensures |r| == |keys|
    decreases |keys|
  {
    if keys == {} then []
    else
      LeastExists(keys);
      LessIsStrictTotal();
      var k :| IsLeast(k, keys);
      var rest := keys - {k};
      var tail := SortedKeys(rest);
      assert |rest| == |keys| - 1;
      LeastFirst(k, keys, tail);
      [k] + tail
  }

  lemma LeastFirst(k: string, keys: set<string>, tail: seq<string>)
    requires IsLeast(k, keys)
    requires forall x :: x in tail <==> x in keys - {k}
    ensures forall i :: 0 <= i < |tail| ==> Less(k, tail[i])
  {
    forall i | 0 <= i < |tail| ensures Less(k, tail[i]) {
      assert tail[i] in tail;
    }
  }

  /** There is one strictly sorted enumeration of a set of keys. */
  lemma {:induction false} SortedUnique(a: seq<string>, b: seq<string>)
    requires StrictlySorted(a) && StrictlySorted(b)
    requires forall k :: k in a <==> k in b
    ensures a == b
    decreases |a|
  {
    LessIsStrictTotal();
    if a == [] {
      HeadIn(b);
      assert |b| == 0;
    } else {
      assert a[0] in b && b[0] in a;
      assert b != [];
      var i :| 0 <= i < |b| && b[i] == a[0];
      var j :| 0 <= j < |a| && a[j] == b[0];
      SortedFromHead(b, i);
      SortedFromHead(a, j);
      assert i == 0;
      forall k ensures k in a[1..] <==> k in b[1..] {
        if k in a[1..] {
          var p :| 1 <= p < |a| && a[p] == k;
          assert Less(a[0], k);
          assert k in b;
        }
        if k in b[1..] {
          var p :| 1 <= p < |b| && b[p] == k;
          assert Less(b[0], k);
          assert k in a;
        }
      }
      SortedUnique(a[1..], b[1..]);
      assert a == [a[0]] + a[1..] && b == [b[0]] + b[1..];
    }
  }

  lemma HeadIn(s: seq<string>)
    ensures |s| > 0 ==> s[0] in s
  {
  }

  lemma SortedFromHead(s: seq<string>, i: int)
    requires StrictlySorted(s) && 0 <= i < |s|
    ensures i == 0 || Less(s[0], s[i])
  {
  }

  /** "key=value" for every value listed under `key`. */
  function KeyPairs(key: string, vals: seq<string>): (r: seq<string>)
  {
    if vals == [] then [] else [key + "=" + vals[0]] + KeyPairs(key, vals[1..])
  }

  /** The pairs of `v` under the listed keys, key by key. */
  function Pairs(keys: seq<string>, v: Values): (r: seq<string>)
    requires forall k :: k in keys ==> k in v
  {
    if keys == [] then [] else KeyPairs(keys[0], v[keys[0]]) + Pairs(keys[1..], v)
  }

  /** Values whose keys and values need no escaping. */
  predicate Unescaped(v: Values)
  {
    forall k :: k in v ==> NeedsNoEscape(k) && forall i :: 0 <= i < |v[k]| ==> NeedsNoEscape(v[k][i])
  }

  /** No "key=value" pair of unescaped values holds an '&'. */
  lemma {:induction false} KeyPairsAmpFree(key: string, vals: seq<string>)
    requires NeedsNoEscape(key) && forall i :: 0 <= i < |vals| ==> NeedsNoEscape(vals[i])
    ensures forall i :: 0 <= i < |KeyPairs(key, vals)| ==> '&' !in KeyPairs(key, vals)[i]
  {
    if vals != [] {
      KeyPairsAmpFree(key, vals[1..]);
      var p := key + "=" + vals[0];
      forall k | 0 <= k < |p| ensures p[k] != '&' {
        if k < |key| {
          assert p[k] == key[k];
        } else if k > |key| {
          assert p[k] == vals[0][k - |key| - 1];
        }
      }
    }
  }

  lemma {:induction false} PairsAmpFree(keys: seq<string>, v: Values)
    requires Unescaped(v) && forall k :: k in keys ==> k in v
    ensures forall i :: 0 <= i < |Pairs(keys, v)| ==> '&' !in Pairs(keys, v)[i]
  {
    if keys != [] {
      KeyPairsAmpFree(keys[0], v[keys[0]]);
      PairsAmpFree(keys[1..], v);
      var a, b := KeyPairs(keys[0], v[keys[0]]), Pairs(keys[1..], v);
      assert forall i :: 0 <= i < |a + b| ==> (a + b)[i] == if i < |a| then a[i] else b[i - |a|];
    }
  }

  /** url.Values.Encode: "key=value" pairs joined by '&', keys in sorted order,
      the values of one key in their list order. Splitting the text at '&'
      gives back exactly those pairs, because no unescaped pair holds an '&'. */
  function Encode(v: Values): (r: string)
    requires Unescaped(v)
    ensures Pairs(SortedKeys(v.Keys), v) == [] ==> r == ""
    ensures Pairs(SortedKeys(v.Keys), v) != [] ==> Split(r, '&') == Pairs(SortedKeys(v.Keys), v)
  {
    var pairs := Pairs(SortedKeys(v.Keys), v);
    PairsAmpFree(SortedKeys(v.Keys), v);
    if pairs == [] then Join(pairs, '&')
    else
      SplitJoin(pairs, '&');
      Join(pairs, '&')
  }

  const ENDPOINT := "https://api.etherscan.io/api"

  /** The query of the literal URL getRequestLink parses: module, action,
      tag, boolean and apikey, each with one value, tag and apikey empty. */
  const BASE_QUERY: Values := map[
    "module" := ["proxy"],
    "action" := ["eth_getBlockByNumber"],
    "tag" := [""],
    "boolean" := ["true"],
    "apikey" := [""]]

  /** The query after rawLink.Set("tag", tag) and rawLink.Set("apikey", apiKey). */
  function RequestQuery(tag: string, apiKey: string): (q: Values)
    ensures q.Keys == BASE_QUERY.Keys
    ensures q["tag"] == [tag] && q["apikey"] == [apiKey]
    ensures forall k :: k in BASE_QUERY && k != "tag" && k != "apikey" ==> q[k] == BASE_QUERY[k]
  {
    BASE_QUERY["tag" := [tag]]["apikey" := [apiKey]]
  }

  /** The five keys of the request query, in byte order. */
  const QUERY_KEYS := ["action", "apikey", "boolean", "module", "tag"]

  /** The "key=value" pairs of the request query in that order. */
  function RequestPairs(tag: string, apiKey: string): (r: seq<string>)
  {
    ["action=eth_getBlockByNumber", "apikey=" + apiKey, "boolean=true", "module=proxy", "tag=" + tag]
  }

  lemma QueryKeyOrder()
    ensures SortedKeys(BASE_QUERY.Keys) == QUERY_KEYS
  {
    var sorted := QUERY_KEYS;
    assert Less("action", "apikey");
    assert Less("apikey", "boolean");
    assert Less("boolean", "module");
    assert Less("module", "tag");
    forall i, j | 0 <= i < j < |sorted| ensures Less(sorted[i], sorted[j]) {
      if j > i + 1 {
        LessChain(sorted, i, j);
      }
    }
    SortedUnique(SortedKeys(BASE_QUERY.Keys), sorted);
  }

  lemma {:induction false} LessChain(s: seq<string>, i: nat, j: nat)
    requires i < j < |s|
    requires forall k :: 0 <= k < |s| - 1 ==> Less(s[k], s[k + 1])
    ensures Less(s[i], s[j])
    decreases j - i
  {
    if j > i + 1 {
      LessChain(s, i, j - 1);
      LessTransitive(s[i], s[j - 1], s[j]);
    }
  }

  lemma LiteralsUnescaped()
    ensures NeedsNoEscape("eth_getBlockByNumber") && NeedsNoEscape("proxy") && NeedsNoEscape("true")
    ensures forall k :: k in BASE_QUERY ==> NeedsNoEscape(k)
  {
    assert NeedsNoEscape("module") && NeedsNoEscape("action") && NeedsNoEscape("tag");
    assert NeedsNoEscape("boolean") && NeedsNoEscape("apikey");
  }

  lemma QueryUnescaped(tag: string, apiKey: string)
    requires NeedsNoEscape(tag) && NeedsNoEscape(apiKey)
    ensures Unescaped(RequestQuery(tag, apiKey))
  {
    var q := RequestQuery(tag, apiKey);
    LiteralsUnescaped();
    forall k | k in q ensures NeedsNoEscape(k) && forall i :: 0 <= i < |q[k]| ==> NeedsNoEscape(q[k][i]) {
      assert k in BASE_QUERY;
    }
  }

  lemma KeyPairsSingle(key: string, val: string)
    ensures KeyPairs(key, [val]) == [key + "=" + val]
  {
    assert [val][1..] == [];
  }

  lemma {:induction false} JoinFive(p0: string, p1: string, p2: string, p3: string, p4: string, sep: char)
    ensures Join([p0, p1, p2, p3, p4], sep) == p0 + [sep] + p1 + [sep] + p2 + [sep] + p3 + [sep] + p4
  {
    var ps := [p0, p1, p2, p3, p4];
    assert ps[4..] == [p4];
    assert Join(ps[4..], sep) == p4;
    assert ps[3..][1..] == ps[4..];
    assert Join(ps[3..], sep) == p3 + [sep] + p4;
    assert ps[2..][1..] == ps[3..];
    assert Join(ps[2..], sep) == p2 + [sep] + (p3 + [sep] + p4);
    assert ps[1..][1..] == ps[2..];
    assert Join(ps[1..], sep) == p1 + [sep] + (p2 + [sep] + (p3 + [sep] + p4));
    assert Join(ps, sep) == p0 + [sep] + (p1 + [sep] + (p2 + [sep] + (p3 + [sep] + p4)));
  }

  /** When every listed key holds exactly one value, Pairs lists one
      "key=value" per key, in the order of the keys. */
  lemma {:induction false} PairsOfSingletons(keys: seq<string>, v: Values, vals: seq<string>)
    requires |keys| == |vals|
    requires forall i :: 0 <= i < |keys| ==> keys[i] in v && v[keys[i]] == [vals[i]]
    ensures forall k :: k in keys ==> k in v
    ensures |Pairs(keys, v)| == |keys|
    ensures forall i :: 0 <= i < |keys| ==> Pairs(keys, v)[i] == keys[i] + "=" + vals[i]
  {
    if keys != [] {
      assert forall i :: 0 <= i < |keys| - 1 ==> keys[1..][i] == keys[i + 1] && vals[1..][i] == vals[i + 1];
      PairsOfSingletons(keys[1..], v, vals[1..]);
      KeyPairsSingle(keys[0], vals[0]);
    }
  }

  /** The pairs of the request query, in sorted key order. */
  lemma QueryPairs(tag: string, apiKey: string)
    ensures forall k :: k in QUERY_KEYS ==> k in RequestQuery(tag, apiKey)
    ensures Pairs(QUERY_KEYS, RequestQuery(tag, apiKey)) == RequestPairs(tag, apiKey)
  {
    var q := RequestQuery(tag, apiKey);
    var vals := ["eth_getBlockByNumber", apiKey, "true", "proxy", tag];
    QueryValues(tag, apiKey, vals);
    PairsOfSingletons(QUERY_KEYS, q, vals);
    PairTexts(tag, apiKey, vals);
  }

  lemma QueryValues(tag: string, apiKey: string, vals: seq<string>)
    requires vals == ["eth_getBlockByNumber", apiKey, "true", "proxy", tag]
    ensures forall i :: 0 <= i < |QUERY_KEYS| ==>
      QUERY_KEYS[i] in RequestQuery(tag, apiKey) && RequestQuery(tag, apiKey)[QUERY_KEYS[i]] == [vals[i]]
  {
    var q := RequestQuery(tag, apiKey);
    assert q["action"] == [vals[0]] && q["apikey"] == [vals[1]] && q["boolean"] == [vals[2]];
    assert q["module"] == [vals[3]] && q["tag"] == [vals[4]];
  }

  lemma PairTexts(tag: string, apiKey: string, vals: seq<string>)
    requires vals == ["eth_getBlockByNumber", apiKey, "true", "proxy", tag]
    ensures |RequestPairs(tag, apiKey)| == |QUERY_KEYS|
    ensures forall i :: 0 <= i < |QUERY_KEYS| ==> RequestPairs(tag, apiKey)[i] == QUERY_KEYS[i] + "=" + vals[i]
  {
    var rs := RequestPairs(tag, apiKey);
    assert rs[0] == QUERY_KEYS[0] + "=" + vals[0];
    assert rs[1] == QUERY_KEYS[1] + "=" + vals[1];
    assert rs[2] == QUERY_KEYS[2] + "=" + vals[2];
    assert rs[3] == QUERY_KEYS[3] + "=" + vals[3];
    assert rs[4] == QUERY_KEYS[4] + "=" + vals[4];
  }

  lemma EncodeRequestQuery(tag: string, apiKey: string)
    requires NeedsNoEscape(tag) && NeedsNoEscape(apiKey)
    ensures Unescaped(RequestQuery(tag, apiKey))
    ensures Encode(RequestQuery(tag, apiKey)) == Join(RequestPairs(tag, apiKey), '&')
  {
    QueryUnescaped(tag, apiKey);
    var q := RequestQuery(tag, apiKey);
    assert q.Keys == BASE_QUERY.Keys;
    QueryKeyOrder();
    QueryPairs(tag, apiKey);
  }

  /** getRequestLink's link: the endpoint, then the five parameters in
      alphabetical key order with the block tag and the API key filled in. */
  function RequestLink(tag: string, apiKey: string): (link: string)
    requires NeedsNoEscape(tag) && NeedsNoEscape(apiKey)
    ensures link == ENDPOINT + "?" + Join(RequestPairs(tag, apiKey), '&')
    ensures link == ENDPOINT + "?" + ("action=eth_getBlockByNumber" + "&" + ("apikey=" + apiKey) + "&" + "boolean=true"
      + "&" + "module=proxy" + "&" + ("tag=" + tag))
  {
    EncodeRequestQuery(tag, apiKey);
    JoinFive("action=eth_getBlockByNumber", "apikey=" + apiKey, "boolean=true", "module=proxy", "tag=" + tag, '&');
    ENDPOINT + "?" + Encode(RequestQuery(tag, apiKey))
  }
}
