// The REST client: a cache of curl handles keyed by connection parameters,
// the response-header buffer filled by curl's header callback, the
// name/value table parsed from it, and the status check on each response.

module Rest {
  import opened Wrappers
  import Text
  import PhpArray

  // ---------------------------------------------------------------------------
  // Parameter names

  const AuthUser: string := "user"
  const AuthPassword: string := "password"
  const PostPayload: string := "payload"
  const FollowRedirects: string := "follow-redirects"
  const Headers: string := "headers"
  const ConnTimeout: string := "conn-timeout"
  const Timeout: string := "timeout"
  const Streaming: string := "streaming"

  /** `$_keyParams`: the parameters that select a cached connection. */
  predicate IsKeyParam(k: string)
  {
    k == AuthUser || k == AuthPassword || k == FollowRedirects || k == Headers ||
    k == ConnTimeout || k == Timeout || k == Streaming
  }

  /** `$_nocacheParams`: the parameters that force a new connection. */
  predicate IsNocacheParam(k: string)
  {
    k == PostPayload
  }

  // ---------------------------------------------------------------------------
  // ksort: string keys in byte order

  /** `strcmp(a, b) < 0`: lexicographic order, a proper prefix first. */
  predicate Below(a: string, b: string)
    decreases |a|
  {
    if |a| == 0 then |b| > 0
    else if |b| == 0 then false
    else if a[0] != b[0] then a[0] < b[0]
    else Below(a[1..], b[1..])
  }

  lemma {:induction false} BelowIrreflexive(a: string)
    ensures !Below(a, a)
    decreases |a|
  {
    if |a| > 0 {
      BelowIrreflexive(a[1..]);
    }
  }

  lemma {:induction false} BelowTransitive(a: string, b: string, c: string)
    requires Below(a, b) && Below(b, c)
    ensures Below(a, c)
    decreases |a|
  {
    if |a| > 0 && a[0] == b[0] && b[0] == c[0] {
      BelowTransitive(a[1..], b[1..], c[1..]);
    }
  }

  lemma {:induction false} BelowTotal(a: string, b: string)
    ensures a == b || Below(a, b) || Below(b, a)
    decreases |a|
  {
    if |a| > 0 && |b| > 0 && a[0] == b[0] {
      BelowTotal(a[1..], b[1..]);
      if a[1..] == b[1..] {
        assert a == [a[0]] + a[1..] && b == [b[0]] + b[1..];
      }
    }
  }

  /** Keys strictly increasing, which also makes them distinct. */
  predicate SortedByKey<V>(s: PhpArray.Array<V>)
  {
    forall i, j :: 0 <= i < j < |s| ==> Below(s[i].0, s[j].0)
  }

  function Insert<V>(x: (string, V), s: PhpArray.Array<V>): PhpArray.Array<V>
    decreases |s|
  {
    if |s| == 0 then [x]
    else if Below(x.0, s[0].0) then [x] + s
    else [s[0]] + Insert(x, s[1..])
  }

  /** `ksort`: the entries ordered by key. */
  function KSort<V>(s: PhpArray.Array<V>): PhpArray.Array<V>
    decreases |s|
  {
    if |s| == 0 then [] else Insert(s[0], KSort(s[1..]))
  }

  lemma {:induction false} InsertPermutes<V>(x: (string, V), s: PhpArray.Array<V>)
    ensures multiset(Insert(x, s)) == multiset(s) + multiset{x}
    decreases |s|
  {
    if |s| > 0 && !Below(x.0, s[0].0) {
      InsertPermutes(x, s[1..]);
      assert s == [s[0]] + s[1..];
    }
  }

  lemma {:induction false} InsertSorted<V>(x: (string, V), s: PhpArray.Array<V>)
    requires SortedByKey(s)
    requires forall i :: 0 <= i < |s| ==> s[i].0 != x.0
    ensures SortedByKey(Insert(x, s))
    decreases |s|
  {
    if |s| > 0 {
      if Below(x.0, s[0].0) {
        forall j | 0 < j < |s| ensures Below(x.0, s[j].0) {
          BelowTransitive(x.0, s[0].0, s[j].0);
        }
      } else {
        BelowTotal(x.0, s[0].0);
        InsertSorted(x, s[1..]);
        var r := Insert(x, s[1..]);
        InsertPermutes(x, s[1..]);
        forall j | 0 <= j < |r| ensures Below(s[0].0, r[j].0) {
          assert r[j] in multiset(s[1..]) + multiset{x};
          if r[j] != x {
            assert r[j] in s[1..];
          }
        }
      }
    }
  }

  /** `ksort` permutes the entries. */
  lemma {:induction false} KSortPermutes<V>(s: PhpArray.Array<V>)
    ensures multiset(KSort(s)) == multiset(s)
    decreases |s|
  {
    if |s| > 0 {
      KSortPermutes(s[1..]);
      InsertPermutes(s[0], KSort(s[1..]));
      assert s == [s[0]] + s[1..];
    }
  }

  /** With distinct keys, `ksort` leaves them in strictly increasing order. */
  lemma {:induction false} KSortSorted<V>(s: PhpArray.Array<V>)
    requires PhpArray.DistinctKeys(s)
    ensures SortedByKey(KSort(s))
    decreases |s|
  {
    if |s| > 0 {
      var rest := s[1..];
      assert PhpArray.DistinctKeys(rest) by {
        forall i, j | 0 <= i < j < |rest| ensures rest[i].0 != rest[j].0 {
          assert rest[i] == s[i + 1] && rest[j] == s[j + 1];
        }
      }
      KSortSorted(rest);
      KSortPermutes(rest);
      var sorted := KSort(rest);
      forall i | 0 <= i < |sorted| ensures sorted[i].0 != s[0].0 {
        assert sorted[i] in multiset(rest);
        var j :| 0 <= j < |rest| && rest[j] == sorted[i];
        assert s[j + 1] == rest[j];
      }
      InsertSorted(s[0], sorted);
    }
  }

  /** Every entry of `a` sits at some position of `b` when both hold the same entries. */
  lemma EntriesOf<T>(a: seq<T>, b: seq<T>, i: int)
    requires multiset(a) == multiset(b) && 0 <= i < |a|
    ensures exists k :: 0 <= k < |b| && b[k] == a[i]
  {
    assert a[i] in multiset(b);
  }

  lemma HeadIsMember<T>(b: seq<T>)
    ensures |b| > 0 ==> b[0] in b
  {
  }

  /** Two strictly sorted lists with the same entries are the same list. */
  lemma {:induction false} SortedUnique<V>(a: PhpArray.Array<V>, b: PhpArray.Array<V>)
    requires SortedByKey(a) && SortedByKey(b)
    requires forall x :: x in a <==> x in b
    ensures a == b
    decreases |a|
  {
    if |a| > 0 {
      assert a[0] in b;
      assert b[0] in b;
      var i :| 0 <= i < |b| && b[i] == a[0];
      var j :| 0 <= j < |a| && a[j] == b[0];
      if i > 0 {
        if j > 0 {
          BelowTransitive(a[0].0, b[0].0, a[0].0);
          BelowIrreflexive(a[0].0);
        } else {
          BelowIrreflexive(b[0].0);
        }
      }
      assert a[0] == b[0];
      forall x ensures x in a[1..] <==> x in b[1..] {
        if x in a[1..] {
          var k :| 1 <= k < |a| && a[k] == x;
          BelowIrreflexive(a[0].0);
          assert x != a[0];
          assert x in b;
        }
        if x in b[1..] {
          var k :| 1 <= k < |b| && b[k] == x;
          BelowIrreflexive(b[0].0);
          assert x != b[0];
          assert x in a;
        }
      }
      SortedUnique(a[1..], b[1..]);
      assert a == [a[0]] + a[1..] && b == [b[0]] + b[1..];
    } else {
      HeadIsMember(b);
    }
  }

  // ---------------------------------------------------------------------------
  // The connection key

  /** The entries whose key is one of `$_keyParams`, in order. */
  function KeyEntries<V>(s: PhpArray.Array<V>): (r: PhpArray.Array<V>)
    decreases |s|
  {
    if |s| == 0 then []
    else
      var front := KeyEntries(s[..|s| - 1]);
      if IsKeyParam(s[|s| - 1].0) then front + [s[|s| - 1]] else front
  }

  lemma {:induction false} KeyEntriesMembers<V>(s: PhpArray.Array<V>)
    ensures forall x :: x in KeyEntries(s) <==> x in s && IsKeyParam(x.0)
    decreases |s|
  {
    if |s| > 0 {
      KeyEntriesMembers(s[..|s| - 1]);
      assert s == s[..|s| - 1] + [s[|s| - 1]];
    }
  }

  lemma KeyEntriesFrom<V>(s: PhpArray.Array<V>, x: (string, V))
    requires x in KeyEntries(s)
    ensures exists k :: 0 <= k < |s| && s[k] == x
  {
    KeyEntriesMembers(s);
  }

  /** Filtering keeps the order: its entries are those of `s` at increasing positions. */
  lemma {:induction false} KeyEntriesSorted<V>(s: PhpArray.Array<V>)
    requires SortedByKey(s)
    ensures SortedByKey(KeyEntries(s))
    decreases |s|
  {
    if |s| > 0 {
      var front := s[..|s| - 1];
      assert SortedByKey(front) by {
        forall i, j | 0 <= i < j < |front| ensures Below(front[i].0, front[j].0) {
          assert front[i] == s[i] && front[j] == s[j];
        }
      }
      KeyEntriesSorted(front);
      var f := KeyEntries(front);
      forall i | 0 <= i < |f| ensures Below(f[i].0, s[|s| - 1].0) {
        assert f[i] in f;
        KeyEntriesFrom(front, f[i]);
        var k :| 0 <= k < |front| && front[k] == f[i];
        assert s[k] == f[i];
      }
    }
  }

  function Values<V>(s: PhpArray.Array<V>): (r: seq<V>)
    ensures |r| == |s|
  {
    seq(|s|, i requires 0 <= i < |s| => s[i].1)
  }

  /** One more entry adds its value at the end, when it is a key parameter. */
  lemma KeyDataStep<V>(s: PhpArray.Array<V>, i: nat)
    requires i < |s|
    ensures Values(KeyEntries(s[..i + 1])) ==
              if IsKeyParam(s[i].0) then Values(KeyEntries(s[..i])) + [s[i].1] else Values(KeyEntries(s[..i]))
  {
    assert s[..i + 1][..i] == s[..i];
    var e := KeyEntries(s[..i]);
    if IsKeyParam(s[i].0) {
      assert Values(e + [s[i]]) == Values(e) + [s[i].1];
    }
  }

  /**
   * `$keyData` after the foreach of `_getCurl` over the sorted parameters: the
   * values of the key parameters in key order. The md5 of its JSON text is
   * modelled by the sequence itself.
   */
  function CacheKey<V>(params: PhpArray.Array<V>): seq<V>
  {
    Values(KeyEntries(KSort(params)))
  }

  /**
   * The cache key is the values of exactly the key parameters present, in
   * strictly increasing key order.
   */
  lemma CacheKeyOrder<V>(params: PhpArray.Array<V>)
    requires PhpArray.DistinctKeys(params)
    ensures var e := KeyEntries(KSort(params));
            CacheKey(params) == Values(e) && SortedByKey(e) &&
            forall x :: x in e <==> x in params && IsKeyParam(x.0)
  {
    var sorted := KSort(params);
    KSortSorted(params);
    KSortPermutes(params);
    KeyEntriesSorted(sorted);
    KeyEntriesMembers(sorted);
    forall x ensures x in sorted <==> x in params {
      assert x in sorted <==> x in multiset(sorted);
    }
  }

  /**
   * The key depends only on the key parameters: parameter lists that agree on
   * every key parameter share a key, whatever else they contain and in
   * whatever order they list it.
   */
  lemma CacheKeyDependsOnlyOnKeyParams<V>(p1: PhpArray.Array<V>, p2: PhpArray.Array<V>)
    requires PhpArray.DistinctKeys(p1) && PhpArray.DistinctKeys(p2)
    requires forall k :: IsKeyParam(k) ==> PhpArray.Lookup(p1, k) == PhpArray.Lookup(p2, k)
    ensures CacheKey(p1) == CacheKey(p2)
  {
    CacheKeyOrder(p1);
    CacheKeyOrder(p2);
    var e1, e2 := KeyEntries(KSort(p1)), KeyEntries(KSort(p2));
    forall x ensures x in e1 <==> x in e2 {
      PhpArray.LookupDistinct(p1, x.0, x.1);
      PhpArray.LookupDistinct(p2, x.0, x.1);
    }
    SortedUnique(e1, e2);
  }

  /**
   * The key keeps the values only, not the names they were given under: one
   * key parameter set to `v` selects the same connection as any other key
   * parameter set to `v`.
   */
  lemma CacheKeyIgnoresNames<V>(a: string, b: string, v: V)
    requires IsKeyParam(a) && IsKeyParam(b)
    ensures CacheKey([(a, v)]) == CacheKey([(b, v)]) == [v]
  {
    assert KSort([(a, v)]) == [(a, v)];
    assert KSort([(b, v)]) == [(b, v)];
    assert KeyEntries([(a, v)]) == [(a, v)];
    assert KeyEntries([(b, v)]) == [(b, v)];
  }

  predicate HasNocacheParam<V>(params: PhpArray.Array<V>)
  {
    exists i :: 0 <= i < |params| && IsNocacheParam(params[i].0)
  }

  /** Reordering the parameters does not change whether a no-cache parameter is present. */
  lemma NocachePermuted<V>(a: PhpArray.Array<V>, b: PhpArray.Array<V>)
    requires multiset(a) == multiset(b)
    ensures HasNocacheParam(a) <==> HasNocacheParam(b)
  {
    if HasNocacheParam(a) {
      var i :| 0 <= i < |a| && IsNocacheParam(a[i].0);
      EntriesOf(a, b, i);
    }
    if HasNocacheParam(b) {
      var i :| 0 <= i < |b| && IsNocacheParam(b[i].0);
      EntriesOf(b, a, i);
    }
  }

  /**
   * The foreach of `_getCurl` over the sorted parameters: it stops at the
   * first no-cache parameter, and otherwise collects the values of the key
   * parameters in order.
   */
  method ScanParams<V>(sorted: PhpArray.Array<V>) returns (keyData: seq<V>, nocache: bool)
    ensures nocache <==> HasNocacheParam(sorted)
    ensures !nocache ==> keyData == Values(KeyEntries(sorted))
  {
    keyData := [];
    for i := 0 to |sorted|
      invariant keyData == Values(KeyEntries(sorted[..i]))
      invariant forall j :: 0 <= j < i ==> !IsNocacheParam(sorted[j].0)
    {
      KeyDataStep(sorted, i);
      if IsNocacheParam(sorted[i].0) {
        return keyData, true;
      }
      if IsKeyParam(sorted[i].0) {
        keyData := keyData + [sorted[i].1];
      }
    }
    assert sorted[..|sorted|] == sorted;
    nocache := false;
  }

  /**
   * What `_getCurl` does to the cache: a fresh handle and no cache change when
   * a no-cache parameter is present; otherwise the cached handle for the key,
   * created and stored first when the key is new.
   */
  function CacheDecision<V(==)>(handles: map<seq<Option<V>>, nat>, next: nat, params: PhpArray.Array<Option<V>>)
    : (r: (nat, map<seq<Option<V>>, nat>, nat))
  {
    if HasNocacheParam(params) then (next, handles, next + 1)
    else
      var key := CacheKey(params);
      if key in handles then (handles[key], handles, next)
      else (next, handles[key := next], next + 1)
  }

  /**
   * Cache entries only accumulate: an existing key keeps its handle, a hit
   * changes nothing, and a miss adds exactly the new key with a handle no
   * cached entry uses.
   */
  lemma CacheDecisionEffect<V>(handles: map<seq<Option<V>>, nat>, next: nat, params: PhpArray.Array<Option<V>>)
    requires forall key :: key in handles ==> handles[key] < next
    ensures var (h, hs, n) := CacheDecision(handles, next, params);
            (forall key :: key in handles ==> key in hs && hs[key] == handles[key]) &&
            (forall key :: key in hs ==> hs[key] < n) &&
            (h == next <==> n == next + 1) &&
            (n == next ==> hs == handles && h in handles.Values) &&
            (!HasNocacheParam(params) ==> CacheKey(params) in hs && hs[CacheKey(params)] == h) &&
            (HasNocacheParam(params) ==> hs == handles && h !in handles.Values)
  {
  }

  /**
   * Two requests whose parameters agree on the key parameters, neither with a
   * no-cache parameter, get the same handle, the second without a new entry.
   */
  lemma SameKeySameHandle<V>(handles: map<seq<Option<V>>, nat>, next: nat,
                             p1: PhpArray.Array<Option<V>>, p2: PhpArray.Array<Option<V>>)
    requires PhpArray.DistinctKeys(p1) && PhpArray.DistinctKeys(p2)
    requires !HasNocacheParam(p1) && !HasNocacheParam(p2)
    requires forall k :: IsKeyParam(k) ==> PhpArray.Lookup(p1, k) == PhpArray.Lookup(p2, k)
    ensures var (h1, hs1, n1) := CacheDecision(handles, next, p1);
            CacheDecision(hs1, n1, p2) == (h1, hs1, n1)
  {
    CacheKeyDependsOnlyOnKeyParams(p1, p2);
  }

  // ---------------------------------------------------------------------------
  // Header lines: preg_match('/^([^:]+):\s*(.+)$/', $line)

  /** PCRE's `\s`: space and the characters tab through carriage return. */
  predicate IsSpace(c: char)
  {
    c == ' ' || '\t' <= c <= '\r'
  }

  predicate AllSpace(s: string)
  {
    forall k :: 0 <= k < |s| ==> IsSpace(s[k])
  }

  predicate NoNewline(s: string)
  {
    forall k :: 0 <= k < |s| ==> s[k] != '\n'
  }

  function FirstColon(s: string): (r: Option<nat>)
    ensures r.Some? ==> r.value < |s|
    decreases |s|
  {
    if |s| == 0 then None
    else if s[0] == ':' then Some(0)
    else match FirstColon(s[1..]) case None => None case Some(i) => Some(i + 1)
  }

  lemma {:induction false} FirstColonSpec(s: string)
    ensures FirstColon(s).Some? ==> s[FirstColon(s).value] == ':' && Text.NoColon(s[..FirstColon(s).value])
    ensures FirstColon(s).None? ==> Text.NoColon(s)
    decreases |s|
  {
    if |s| > 0 && s[0] != ':' {
      FirstColonSpec(s[1..]);
      if FirstColon(s[1..]).Some? {
        var i := FirstColon(s[1..]).value;
        assert s[..i + 1] == [s[0]] + s[1..][..i];
      }
    }
  }

  /** The position of the first ':' after a colon-free prefix. */
  lemma {:induction false} FirstColonAt(name: string, rest: string)
    requires Text.NoColon(name)
    ensures FirstColon(name + ":" + rest) == Some(|name|)
    decreases |name|
  {
    var s := name + ":" + rest;
    if |name| > 0 {
      assert s[1..] == name[1..] + ":" + rest;
      FirstColonAt(name[1..], rest);
    }
  }

  /** Length of the run of `\s` characters that starts `s`. */
  function LeadingSpaces(s: string): (n: nat)
    ensures n <= |s|
    decreases |s|
  {
    if |s| > 0 && IsSpace(s[0]) then 1 + LeadingSpaces(s[1..]) else 0
  }

  lemma {:induction false} LeadingSpacesSpec(s: string)
    ensures AllSpace(s[..LeadingSpaces(s)])
    ensures LeadingSpaces(s) < |s| ==> !IsSpace(s[LeadingSpaces(s)])
    decreases |s|
  {
    if |s| > 0 && IsSpace(s[0]) {
      LeadingSpacesSpec(s[1..]);
      var n := LeadingSpaces(s[1..]);
      assert s[..n + 1] == [s[0]] + s[1..][..n];
    }
  }

  /** A run of spaces followed by anything is at most the leading run. */
  lemma {:induction false} LeadingSpacesAtLeast(ws: string, t: string)
    requires AllSpace(ws)
    ensures LeadingSpaces(ws + t) >= |ws|
    decreases |ws|
  {
    if |ws| > 0 {
      assert (ws + t)[1..] == ws[1..] + t;
      LeadingSpacesAtLeast(ws[1..], t);
    }
  }

  /** `$` also matches before a final line feed, so that one line feed is not part of the match. */
  function DropFinalNewline(s: string): string
  {
    if |s| > 0 && s[|s| - 1] == '\n' then s[..|s| - 1] else s
  }

  /** Where `(.+)` starts: after every leading space, but leaving it at least one character. */
  function ValueStart(body: string): (k: nat)
    requires |body| > 0
    ensures k < |body|
  {
    if LeadingSpaces(body) < |body| then LeadingSpaces(body) else |body| - 1
  }

  /**
   * `\s*(.+)$` against the text after the first colon: `\s*` takes as many
   * spaces as it can while leaving at least one character for `(.+)`, whose
   * text must not contain a line feed.
   */
  function HeaderValue(rest: string): Option<string>
  {
    var body := DropFinalNewline(rest);
    if |body| == 0 then None
    else if NoNewline(body[ValueStart(body)..]) then Some(body[ValueStart(body)..])
    else None
  }

  /** The match: group 1 is everything before the first ':' and must not be empty. */
  function MatchHeader(line: string): Option<(string, string)>
  {
    match FirstColon(line)
    case None => None
    case Some(i) =>
      if i == 0 then None
      else
        match HeaderValue(line[i + 1..])
        case None => None
        case Some(v) => Some((line[..i], v))
  }

  /** One way `\s*(.+)$` can match: spaces, the value, then the end or a final line feed. */
  predicate ValueParts(rest: string, ws: string, value: string, tail: string)
  {
    rest == ws + value + tail && AllSpace(ws) &&
    |value| >= 1 && NoNewline(value) && (tail == "" || tail == "\n")
  }

  /** One way the whole pattern can match: a colon-free name, the colon, then the value parts. */
  predicate Decomposes(line: string, name: string, ws: string, value: string, tail: string)
  {
    |name| >= 1 && Text.NoColon(name) &&
    line == name + ":" + (ws + value + tail) && ValueParts(ws + value + tail, ws, value, tail)
  }

  lemma HeaderValueSound(rest: string)
    requires HeaderValue(rest).Some?
    ensures exists ws, tail :: ValueParts(rest, ws, HeaderValue(rest).value, tail)
  {
    var body := DropFinalNewline(rest);
    var tail := if |rest| > 0 && rest[|rest| - 1] == '\n' then "\n" else "";
    assert rest == body + tail;
    LeadingSpacesSpec(body);
    var k := ValueStart(body);
    var ws := body[..k];
    assert AllSpace(ws) by {
      forall j | 0 <= j < |ws| ensures IsSpace(ws[j]) {
        assert ws[j] == body[..LeadingSpaces(body)][j];
      }
    }
    assert body == ws + body[k..];
    assert ValueParts(rest, ws, body[k..], tail);
  }

  lemma HeaderValueComplete(rest: string, ws: string, value: string, tail: string)
    requires ValueParts(rest, ws, value, tail)
    ensures HeaderValue(rest).Some?
    ensures exists ws' :: ValueParts(rest, ws', HeaderValue(rest).value, tail) && |ws'| >= |ws|
  {
    var body := ws + value;
    assert value[|value| - 1] != '\n';
    assert DropFinalNewline(rest) == body by {
      if tail == "\n" {
        assert rest[..|rest| - 1] == body;
      } else {
        assert rest == body;
      }
    }
    LeadingSpacesAtLeast(ws, value);
    LeadingSpacesSpec(body);
    var k := ValueStart(body);
    assert k >= |ws|;
    assert NoNewline(body[k..]) by {
      forall j | 0 <= j < |body[k..]| ensures body[k..][j] != '\n' {
        assert body[k..][j] == value[k - |ws| + j];
      }
    }
    assert HeaderValue(rest) == Some(body[k..]);
    var ws' := body[..k];
    assert AllSpace(ws') by {
      forall j | 0 <= j < |ws'| ensures IsSpace(ws'[j]) {
        assert ws'[j] == body[..LeadingSpaces(body)][j];
      }
    }
    assert body == ws' + body[k..];
    assert ValueParts(rest, ws', body[k..], tail);
  }

  /** Every match is a way the pattern can match. */
  lemma MatchHeaderSound(line: string)
    requires MatchHeader(line).Some?
    ensures exists ws, tail :: Decomposes(line, MatchHeader(line).value.0, ws, MatchHeader(line).value.1, tail)
  {
    FirstColonSpec(line);
    var i := FirstColon(line).value;
    var rest := line[i + 1..];
    assert line == line[..i] + ":" + rest;
    HeaderValueSound(rest);
    var ws, tail :| ValueParts(rest, ws, HeaderValue(rest).value, tail);
    assert Decomposes(line, line[..i], ws, HeaderValue(rest).value, tail);
  }

  /**
   * Every way the pattern can match is found, with the same name, and the
   * match takes at least as many spaces as that way does (greedy `\s*`).
   */
  lemma MatchHeaderComplete(line: string, name: string, ws: string, value: string, tail: string)
    requires Decomposes(line, name, ws, value, tail)
    ensures MatchHeader(line).Some? && MatchHeader(line).value.0 == name
    ensures exists ws' :: Decomposes(line, name, ws', MatchHeader(line).value.1, tail) && |ws'| >= |ws|
  {
    var rest := ws + value + tail;
    FirstColonAt(name, rest);
    var i := |name|;
    assert line[i + 1..] == rest;
    assert line[..i] == name;
    HeaderValueComplete(rest, ws, value, tail);
    var ws' :| ValueParts(rest, ws', HeaderValue(rest).value, tail) && |ws'| >= |ws|;
    assert rest == ws' + HeaderValue(rest).value + tail;
    assert Decomposes(line, name, ws', MatchHeader(line).value.1, tail);
  }

  /** A line without a colon, such as the status line or the blank line, is ignored. */
  lemma NoColonNoMatch(line: string)
    requires Text.NoColon(line)
    ensures MatchHeader(line) == None
  {
    FirstColonSpec(line);
  }

  /** The outcome of the pattern on one line: the (name, value) pair, or None. */
  type Match = Option<(string, string)>

  /** The match names the header `k`. */
  predicate Names(m: Match, k: string)
  {
    m.Some? && m.value.0 == k
  }

  /** The pattern applied to every line. */
  function MatchAll(lines: seq<string>): (ms: seq<Match>)
    ensures |ms| == |lines| && forall i :: 0 <= i < |lines| ==> ms[i] == MatchHeader(lines[i])
  {
    seq(|lines|, i requires 0 <= i < |lines| => MatchHeader(lines[i]))
  }

  /** The array after `$arr[name] = value` for every match, in order. */
  function Assignments(ms: seq<Match>): PhpArray.Array<string>
    decreases |ms|
  {
    if |ms| == 0 then []
    else
      var table := Assignments(ms[..|ms| - 1]);
      match ms[|ms| - 1]
      case None => table
      case Some(nv) => PhpArray.Assign(table, nv.0, nv.1)
  }

  /** `$_httpResponseHeaders` after parsing the given lines. */
  function HeaderTable(lines: seq<string>): PhpArray.Array<string>
  {
    Assignments(MatchAll(lines))
  }

  /** The value of the last match naming `k`, None when no match names it. */
  function LastValue(ms: seq<Match>, k: string): Option<string>
    decreases |ms|
  {
    if |ms| == 0 then None
    else if Names(ms[|ms| - 1], k) then Some(ms[|ms| - 1].value.1)
    else LastValue(ms[..|ms| - 1], k)
  }

  /** Match `i` names `k` and no later match does. */
  predicate LastNamedAt(ms: seq<Match>, i: int, k: string)
  {
    0 <= i < |ms| && Names(ms[i], k) && forall j :: i < j < |ms| ==> !Names(ms[j], k)
  }

  /** LastValue finds the value of the one match that names `k` last. */
  lemma {:induction false} LastValueSpec(ms: seq<Match>, k: string, v: string)
    ensures LastValue(ms, k) == Some(v) <==> exists i :: LastNamedAt(ms, i, k) && ms[i].value.1 == v
    ensures LastValue(ms, k) == None <==> forall i :: 0 <= i < |ms| ==> !Names(ms[i], k)
    decreases |ms|
  {
    if |ms| > 0 {
      var front := ms[..|ms| - 1];
      var n := |ms| - 1;
      if Names(ms[n], k) {
        assert LastNamedAt(ms, n, k);
      } else {
        LastValueSpec(front, k, v);
        forall i | 0 <= i < n ensures LastNamedAt(ms, i, k) <==> LastNamedAt(front, i, k) {
          assert ms[i] == front[i];
          assert forall j :: i < j < n ==> ms[j] == front[j];
        }
        assert forall i :: 0 <= i < n ==> ms[i] == front[i];
      }
    }
  }

  /** Assigning the matches in order leaves, for every name, the value of its last match. */
  lemma {:induction false} AssignmentsLastWins(ms: seq<Match>, k: string)
    ensures PhpArray.Lookup(Assignments(ms), k) == LastValue(ms, k)
    decreases |ms|
  {
    if |ms| > 0 {
      var front := ms[..|ms| - 1];
      AssignmentsLastWins(front, k);
      match ms[|ms| - 1] {
        case None =>
        case Some(nv) =>
          PhpArray.AssignLookup(Assignments(front), nv.0, nv.1, k);
      }
    }
  }

  /** Each header name appears once in the table. */
  lemma {:induction false} AssignmentsDistinct(ms: seq<Match>)
    ensures PhpArray.DistinctKeys(Assignments(ms))
    decreases |ms|
  {
    if |ms| > 0 {
      AssignmentsDistinct(ms[..|ms| - 1]);
      match ms[|ms| - 1] {
        case None =>
        case Some(nv) =>
          PhpArray.AssignKeys(Assignments(ms[..|ms| - 1]), nv.0, nv.1);
      }
    }
  }

  /**
   * `getLastResponseHeaders(k)` after parsing: the value on the last line
   * naming `k`, and null exactly when no line names it; no name is listed twice.
   */
  lemma HeaderTableLastWins(lines: seq<string>, k: string, v: string)
    ensures PhpArray.Lookup(HeaderTable(lines), k) == Some(v) <==>
              exists i :: LastNamedAt(MatchAll(lines), i, k) && MatchHeader(lines[i]).value.1 == v
    ensures PhpArray.Lookup(HeaderTable(lines), k) == None <==>
              forall i :: 0 <= i < |lines| ==> !Names(MatchHeader(lines[i]), k)
    ensures PhpArray.DistinctKeys(HeaderTable(lines))
  {
    var ms := MatchAll(lines);
    AssignmentsLastWins(ms, k);
    LastValueSpec(ms, k, v);
    AssignmentsDistinct(ms);
  }

  // ---------------------------------------------------------------------------
  // The client state

  /** What curl reports for one transfer: the header chunks in callback order, the status code and the body. */
  datatype Transfer = Transfer(headerChunks: seq<string>, code: int, body: string)

  /** The options a request sets on its handle before `curl_exec`. */
  datatype Sent<V> = Sent(handle: nat, httpMethod: string, url: string, postFields: Option<V>)

  /** `getLastResponseHeaders`: one value (None for PHP's null) or the whole table. */
  datatype HeaderAnswer = Value(value: Option<string>) | All(table: PhpArray.Array<string>)

  /** The exception message of a response outside 200-299. */
  function StatusError(code: int, url: string): string
  {
    "Request returned " + Text.IntToString(code) + " HTTP response code: " + url
  }

  /** `isset($params['payload']) && ($method === 'POST' || $method === 'PUT')`: the payload that is attached. */
  function AttachedPayload<V>(httpMethod: string, params: PhpArray.Array<Option<V>>): (r: Option<V>)
    ensures r.Some? <==> (httpMethod == "POST" || httpMethod == "PUT") &&
                         PhpArray.Lookup(params, PostPayload).Some? && PhpArray.Lookup(params, PostPayload).value.Some?
    ensures r.Some? ==> PhpArray.Lookup(params, PostPayload) == Some(r)
  {
    if httpMethod == "POST" || httpMethod == "PUT" then
      var found := PhpArray.Lookup(params, PostPayload);
      if found.Some? then found.value else None
    else None
  }

  /**
   * The static state of class REST. Parameter values are `Option<V>`, None
   * standing for PHP's null; handles are numbered in creation order.
   */
  class Client<V(==)> {
    var handles: map<seq<Option<V>>, nat>
    var nextHandle: nat
    var responseCode: Option<int>
    var headerBuffer: string
    var headers: PhpArray.Array<string>
    var lastSent: Option<Sent<V>>

    /** Every cached handle was created before the next one. */
    predicate Valid()
      reads this
    {
      forall key :: key in handles ==> handles[key] < nextHandle
    }

    constructor ()
      ensures Valid()
      ensures handles == map[] && nextHandle == 0 && responseCode == None
      ensures headerBuffer == "" && headers == [] && lastSent == None
    {
      handles := map[];
      nextHandle := 0;
      responseCode := None;
      headerBuffer := "";
      headers := [];
      lastSent := None;
    }

    /** `_initCurl`: a new handle. */
    method InitCurl() returns (h: nat)
      modifies this
      ensures h == old(nextHandle) && nextHandle == old(nextHandle) + 1
      ensures handles == old(handles) && responseCode == old(responseCode)
      ensures headerBuffer == old(headerBuffer) && headers == old(headers) && lastSent == old(lastSent)
    {
      h := nextHandle;
      nextHandle := nextHandle + 1;
    }

    /** `_getCurl`: scan the sorted parameters, then reuse or create the cached handle. */
    method GetCurl(params: PhpArray.Array<Option<V>>) returns (h: nat)
      requires Valid() && PhpArray.DistinctKeys(params)
      modifies this
      ensures Valid()
      ensures (h, handles, nextHandle) == CacheDecision(old(handles), old(nextHandle), params)
      ensures responseCode == old(responseCode) && headerBuffer == old(headerBuffer)
      ensures headers == old(headers) && lastSent == old(lastSent)
    {
      var sorted := KSort(params);
      KSortPermutes(params);
      NocachePermuted(params, sorted);
      var keyData, nocache := ScanParams(sorted);
      if nocache {
        h := InitCurl();
        return;
      }
      if keyData !in handles {
        var created := InitCurl();
        handles := handles[keyData := created];
      }
      h := handles[keyData];
    }

    /** `_processResponseHeader`: append the chunk to the buffer and report its length. */
    method ProcessResponseHeader(chunk: string) returns (n: nat)
      modifies this
      ensures n == |chunk|
      ensures headerBuffer == old(headerBuffer) + chunk
      ensures handles == old(handles) && nextHandle == old(nextHandle) && responseCode == old(responseCode)
      ensures headers == old(headers) && lastSent == old(lastSent)
    {
      headerBuffer := headerBuffer + chunk;
      n := |chunk|;
    }

    /** `getLastResponseHeaders`: the value for `key`, or the whole table when `key` is null. */
    function LastResponseHeaders(key: Option<string>): (r: HeaderAnswer)
      reads this
      ensures key.None? ==> r == All(headers)
      ensures key.Some? ==> r.Value? && (r.value.Some? <==> PhpArray.HasKey(headers, key.value))
      ensures key.Some? && r.value.Some? ==> (key.value, r.value.value) in headers
    {
      match key
      case None => All(headers)
      case Some(k) => Value(PhpArray.Lookup(headers, k))
    }

    /**
     * `_parseResponse`: record the status code, clear the table, then assign
     * every CRLF-separated line of the buffer that matches the header pattern.
     */
    method ParseResponse(code: int)
      modifies this
      ensures responseCode == Some(code)
      ensures headers == HeaderTable(Text.SplitCrlf(headerBuffer))
      ensures handles == old(handles) && nextHandle == old(nextHandle)
      ensures headerBuffer == old(headerBuffer) && lastSent == old(lastSent)
    {
      responseCode := Some(code);
      headers := [];
      var lines := Text.SplitCrlf(headerBuffer);
      ghost var ms := MatchAll(lines);
      for i := 0 to |lines|
        invariant headers == Assignments(ms[..i])
        invariant responseCode == Some(code)
        invariant handles == old(handles) && nextHandle == old(nextHandle)
        invariant headerBuffer == old(headerBuffer) && lastSent == old(lastSent)
      {
        assert ms[..i + 1][..i] == ms[..i];
        match MatchHeader(lines[i]) {
          case Some(nv) =>
            headers := PhpArray.Assign(headers, nv.0, nv.1);
          case None =>
        }
      }
      assert ms[..|lines|] == ms;
    }

    /**
     * `_doRequest`: choose the handle, attach the payload for POST and PUT,
     * clear the header buffer, let curl deliver the transfer's header chunks,
     * parse them, then reject a status outside 200-299.
     */
    method DoRequest(httpMethod: string, url: string, params: PhpArray.Array<Option<V>>, transfer: Transfer)
      returns (r: Result<string, string>)
      requires Valid() && PhpArray.DistinctKeys(params)
      modifies this
      ensures Valid()
      ensures var (h, hs, n) := CacheDecision(old(handles), old(nextHandle), params);
              handles == hs && nextHandle == n &&
              lastSent == Some(Sent(h, httpMethod, url, AttachedPayload(httpMethod, params)))
      ensures headerBuffer == Text.Concat(transfer.headerChunks)
      ensures responseCode == Some(transfer.code)
      ensures headers == HeaderTable(Text.SplitCrlf(headerBuffer))
      ensures 200 <= transfer.code <= 299 ==> r == Success(transfer.body)
      ensures !(200 <= transfer.code <= 299) ==> r == Failure(StatusError(transfer.code, url))
    {
      var h := GetCurl(params);
      var postFields: Option<V> := None;
      var payload := PhpArray.Lookup(params, PostPayload);
      if payload.Some? && payload.value.Some? && (httpMethod == "POST" || httpMethod == "PUT") {
        postFields := payload.value;
      }
      lastSent := Some(Sent(h, httpMethod, url, postFields));
      headerBuffer := "";
      var chunks := transfer.headerChunks;
      for i := 0 to |chunks|
        invariant headerBuffer == Text.Concat(chunks[..i])
        invariant Valid() && (h, handles, nextHandle) == CacheDecision(old(handles), old(nextHandle), params)
        invariant lastSent == Some(Sent(h, httpMethod, url, postFields))
      {
        Text.ConcatAppend(chunks[..i], [chunks[i]]);
        assert chunks[..i + 1] == chunks[..i] + [chunks[i]];
        var n := ProcessResponseHeader(chunks[i]);
      }
      assert chunks[..|chunks|] == chunks;
      ParseResponse(transfer.code);
      if responseCode.value < 200 || responseCode.value > 299 {
        return Failure(StatusError(transfer.code, url));
      }
      return Success(transfer.body);
    }
  }
}
