/** The search box of the log page: a query is split at spaces, tokens of the form
    `key:value` with a known key set a field, and the rest is free text. */
module LogSearch {
  import opened Text

  const KEYS: seq<string> := ["host", "level", "service", "before", "after", "order"]

  type Fields = map<string, string>

  /** A token holding a colon whose first piece names a field, in any case. */
  predicate Recognised(token: string) {
    var pieces := Split(token, {':'});
    |pieces| >= 2 && Lower(pieces[0]) in KEYS
  }

  function KeyOf(token: string): string
    requires Recognised(token)
  {
    Lower(Split(token, {':'})[0])
  }

  /** Only the text up to the second colon is taken. */
  function ValueOf(token: string): string
    requires Recognised(token)
  {
    Split(token, {':'})[1]
  }

  function FreeTokens(tokens: seq<string>): seq<string> {
    if tokens == [] then []
    else (if Recognised(tokens[0]) then [] else [tokens[0]]) + FreeTokens(tokens[1..])
  }

  /** Value of the last token that sets the key; empty when there is none. */
  function LastValue(tokens: seq<string>, key: string): string {
    if tokens == [] then ""
    else
      var n := |tokens| - 1;
      if Recognised(tokens[n]) && KeyOf(tokens[n]) == key then ValueOf(tokens[n])
      else LastValue(tokens[..n], key)
  }

  ghost predicate Parses(query: string, fields: Fields, q: string) {
    var tokens := Split(query, {' '});
    && q == Join(FreeTokens(tokens), " ")
    && fields.Keys == (set k | k in KEYS)
    && forall k :: k in KEYS ==> fields[k] == LastValue(tokens, k)
  }

  lemma {:induction false} FreeTokensAppend(a: seq<string>, b: seq<string>)
    ensures FreeTokens(a + b) == FreeTokens(a) + FreeTokens(b)
  {
    hide Recognised;
    if a == [] {
      assert a + b == b;
    } else {
      FreeTokensAppend(a[1..], b);
      assert (a + b)[1..] == a[1..] + b && (a + b)[0] == a[0];
      var first := if Recognised(a[0]) then [] else [a[0]];
      assert FreeTokens(a + b) == first + (FreeTokens(a[1..]) + FreeTokens(b));
    }
  }

  method ParseSearchQuery(query: string) returns (fields: Fields, q: string)
    ensures Parses(query, fields, q)
    ensures fields.Keys == {"host", "level", "service", "before", "after", "order"}
  {
    hide Recognised, KeyOf, ValueOf, Join, Split, Lower;
    fields := map k | k in KEYS :: "";
    var parts := Split(query, {' '});
    var freeText := [];
    for i := 0 to |parts|
      invariant fields.Keys == set k | k in KEYS
      invariant freeText == FreeTokens(parts[..i])
      invariant forall k :: k in KEYS ==> fields[k] == LastValue(parts[..i], k)
    {
      var part := parts[i];
      assert parts[..i + 1] == parts[..i] + [part] && parts[..i + 1][..i] == parts[..i];
      FreeTokensAppend(parts[..i], [part]);
      var recognised, key, value := ReadToken(part);
      if recognised {
        fields := fields[key := value];
      } else {
        freeText := freeText + [part];
      }
      assert [part][1..] == [];
    }
    assert parts[..|parts|] == parts;
    q := Join(freeText, " ");
    SixKeys(fields);
  }

  lemma SixKeys(fields: Fields)
    requires fields.Keys == set k | k in KEYS
    ensures fields.Keys == {"host", "level", "service", "before", "after", "order"}
  {
    assert KEYS[0] == "host" && KEYS[1] == "level" && KEYS[2] == "service";
    assert KEYS[3] == "before" && KEYS[4] == "after" && KEYS[5] == "order";
  }

  /** The test the loop makes on one token. */
  method ReadToken(part: string) returns (recognised: bool, key: string, value: string)
    ensures recognised == Recognised(part)
    ensures recognised ==> key == KeyOf(part) && value == ValueOf(part) && key in KEYS
  {
    var pieces := Split(part, {':'});
    if |pieces| < 2 || Lower(pieces[0]) !in KEYS {
      return false, "", "";
    }
    return true, Lower(pieces[0]), pieces[1];
  }

  // ---------------------------------------------------------------------------
  // Rendering and reading back
  // ---------------------------------------------------------------------------

  function RenderKeys(keys: seq<string>, fields: Fields): seq<string>
    requires forall k :: k in keys ==> k in fields
  {
    if keys == [] then []
    else
      assert forall k :: k in keys[1..] ==> k in keys;
      (if fields[keys[0]] == "" then [] else [keys[0] + ":" + fields[keys[0]]]) + RenderKeys(keys[1..], fields)
  }

  /** The set fields as `key:value` tokens, then the free text. */
  function Render(fields: Fields, text: string): string
    requires forall k :: k in KEYS ==> k in fields
  {
    var tokens := RenderKeys(KEYS, fields);
    Join(tokens + (if text == "" && tokens != [] then [] else Split(text, {' '})), " ")
  }

  lemma KeyFacts(key: string)
    requires key in KEYS
    ensures Lower(key) == key && Free(key, {':'}) && Free(key, {' '})
  {
  }

  lemma TokenReadBack(key: string, value: string)
    requires key in KEYS
    ensures var token := key + ":" + value;
            Recognised(token) && KeyOf(token) == key && ValueOf(token) == Split(value, {':'})[0]
  {
    KeyFacts(key);
    SplitWord(key, ':', value, {':'});
    assert key + [':'] + value == key + ":" + value;
  }

  lemma {:induction false} LastValueSkips(a: seq<string>, b: seq<string>, key: string)
    requires forall i :: 0 <= i < |b| ==> !Recognised(b[i]) || KeyOf(b[i]) != key
    ensures LastValue(a + b, key) == LastValue(a, key)
  {
    hide Recognised, KeyOf, ValueOf;
    if b == [] {
      assert a + b == a;
    } else {
      var n := |b| - 1;
      LastValueSkips(a, b[..n], key);
      assert (a + b)[..|a + b| - 1] == a + b[..n];
      assert (a + b)[|a + b| - 1] == b[n];
    }
  }

  lemma LastValueAt(a: seq<string>, token: string, b: seq<string>, key: string)
    requires Recognised(token) && KeyOf(token) == key
    requires forall i :: 0 <= i < |b| ==> !Recognised(b[i]) || KeyOf(b[i]) != key
    ensures LastValue(a + [token] + b, key) == ValueOf(token)
  {
    hide Recognised, KeyOf, ValueOf;
    LastValueSkips(a + [token], b, key);
    assert (a + [token])[..|a + [token]| - 1] == a;
  }

  ghost predicate Distinct(keys: seq<string>) {
    forall i, j :: 0 <= i < j < |keys| ==> keys[i] != keys[j]
  }

  /** The keys name fields whose values hold no space. */
  ghost predicate Renderable(keys: seq<string>, fields: Fields) {
    forall k :: k in keys ==> k in fields && k in KEYS && Free(fields[k], {' '})
  }

  lemma RenderableTail(keys: seq<string>, fields: Fields)
    requires Renderable(keys, fields) && keys != []
    ensures Renderable(keys[1..], fields) && keys[0] in fields && keys[0] in KEYS && Free(fields[keys[0]], {' '})
    ensures Distinct(keys) ==> Distinct(keys[1..]) && keys[0] !in keys[1..]
  {
    assert forall k :: k in keys[1..] ==> k in keys;
    assert keys[0] in keys;
  }

  /** Rendered tokens are recognised, set one of the keys and contain no space. */
  lemma {:induction false} RenderedTokens(keys: seq<string>, fields: Fields)
    requires forall k :: k in keys ==> k in fields && k in KEYS && Free(fields[k], {' '})
    ensures forall t :: t in RenderKeys(keys, fields) ==> Recognised(t) && KeyOf(t) in keys && Free(t, {' '})
  {
    hide Recognised, KeyOf, ValueOf, Free;
    if keys != [] {
      assert forall k :: k in keys[1..] ==> k in keys;
      RenderedTokens(keys[1..], fields);
      RenderedToken(keys[0], fields[keys[0]]);
    }
  }

  lemma RenderedToken(key: string, value: string)
    requires key in KEYS && Free(value, {' '})
    ensures var token := key + ":" + value; Recognised(token) && KeyOf(token) == key && Free(token, {' '})
  {
    hide Recognised, KeyOf, ValueOf;
    TokenReadBack(key, value);
    KeyFacts(key);
  }

  lemma {:induction false} FreeTokensNone(tokens: seq<string>)
    requires forall t :: t in tokens ==> Recognised(t)
    ensures FreeTokens(tokens) == []
  {
    hide Recognised;
    if tokens != [] {
      FreeTokensNone(tokens[1..]);
    }
  }

  lemma {:induction false} RenderedValue(keys: seq<string>, fields: Fields, b: seq<string>, key: string)
    requires Renderable(keys, fields) && Distinct(keys)
    requires forall i :: 0 <= i < |b| ==> !Recognised(b[i])
    ensures (forall k :: k in keys ==> k in fields)
    ensures LastValue(RenderKeys(keys, fields) + b, key) ==
            if key in keys && fields[key] != "" then Split(fields[key], {':'})[0] else ""
  {
    hide Recognised, KeyOf, ValueOf, Free, Split, LastValue, Renderable, Distinct, RenderKeys;
    RenderKeysFacts(keys, fields);
    if keys == [] {
      NoTokens(key);
      LastValueSkips([], b, key);
    } else {
      RenderableTail(keys, fields);
      RenderedValue(keys[1..], fields, b, key);
      var tail := RenderKeys(keys[1..], fields) + b;
      if fields[keys[0]] == "" {
        assert RenderKeys(keys, fields) + b == tail;
      } else {
        TailTokens(keys[1..], fields, b, keys[0]);
        FrontToken(keys[0], fields[keys[0]], tail, key);
        assert RenderKeys(keys, fields) + b == [keys[0] + ":" + fields[keys[0]]] + tail;
      }
    }
  }

  lemma RenderKeysFacts(keys: seq<string>, fields: Fields)
    requires Renderable(keys, fields)
    ensures forall k :: k in keys ==> k in fields
    ensures keys == [] ==> RenderKeys(keys, fields) == []
    ensures keys != [] ==>
              && (forall k :: k in keys[1..] ==> k in fields)
              && keys[0] in keys
              && RenderKeys(keys, fields) ==
                 (if fields[keys[0]] == "" then [] else [keys[0] + ":" + fields[keys[0]]]) + RenderKeys(keys[1..], fields)
  {
    hide Free;
    if keys != [] {
      assert forall k :: k in keys[1..] ==> k in keys;
    }
  }

  lemma TailTokens(keys: seq<string>, fields: Fields, b: seq<string>, k: string)
    requires Renderable(keys, fields) && k !in keys && forall i :: 0 <= i < |b| ==> !Recognised(b[i])
    ensures (forall k :: k in keys ==> k in fields)
    ensures var tail := RenderKeys(keys, fields) + b;
            forall i :: 0 <= i < |tail| ==> !Recognised(tail[i]) || KeyOf(tail[i]) != k
  {
    hide Recognised, KeyOf, ValueOf, Free, Split;
    RenderedTokens(keys, fields);
    var tokens := RenderKeys(keys, fields);
    assert forall i :: 0 <= i < |tokens| ==> tokens[i] in tokens;
  }

  lemma NoTokens(key: string)
    ensures LastValue([], key) == ""
  {
  }

  /** A token in front of others decides its own key and no other. */
  lemma FrontToken(k: string, value: string, tail: seq<string>, key: string)
    requires k in KEYS && Free(value, {' '})
    requires forall i :: 0 <= i < |tail| ==> !Recognised(tail[i]) || KeyOf(tail[i]) != k
    ensures LastValue([k + ":" + value] + tail, key) ==
            if key == k then Split(value, {':'})[0] else LastValue(tail, key)
  {
    hide Recognised, KeyOf, ValueOf, LastValue;
    var token := k + ":" + value;
    TokenReadBack(k, value);
    if key == k {
      LastValueAt([], token, tail, key);
      assert [] + [token] + tail == [token] + tail;
    } else {
      LastValueAfter(token, tail, key);
    }
  }

  lemma {:induction false} LastValueAfter(token: string, b: seq<string>, key: string)
    requires Recognised(token) ==> KeyOf(token) != key
    ensures LastValue([token] + b, key) == LastValue(b, key)
  {
    hide Recognised, KeyOf, ValueOf;
    var all := [token] + b;
    if b == [] {
      assert all == [token] && all[..0] == [];
    } else {
      var n := |b| - 1;
      assert all[..|all| - 1] == [token] + b[..n] && all[|all| - 1] == b[n];
      LastValueAfter(token, b[..n], key);
    }
  }

  lemma {:induction false} FreeTokensAll(tokens: seq<string>)
    requires forall i :: 0 <= i < |tokens| ==> !Recognised(tokens[i])
    ensures FreeTokens(tokens) == tokens
  {
    hide Recognised;
    if tokens != [] {
      FreeTokensAll(tokens[1..]);
    }
  }

  /** ROUND TRIP. Field values without spaces, rendered in front of free text none of whose
      tokens is recognised, are read back with exactly the same free text, each value cut
      at its first colon; so the fields come back unchanged exactly when no value holds a
      colon. */
  lemma SearchRoundTrip(fields: Fields, text: string, fields': Fields, q: string)
    requires fields.Keys == set k | k in KEYS
    requires forall k :: k in KEYS ==> Free(fields[k], {' '})
    requires forall i :: 0 <= i < |Split(text, {' '})| ==> !Recognised(Split(text, {' '})[i])
    requires Parses(Render(fields, text), fields', q)
    ensures q == text
    ensures forall k :: k in KEYS ==> fields'[k] == Split(fields[k], {':'})[0]
    ensures fields' == fields <==> forall k :: k in KEYS ==> Free(fields[k], {':'})
  {
    hide Recognised, KeyOf, ValueOf, RenderKeys, LastValue, FreeTokens, Lower;
    var tokens := RenderKeys(KEYS, fields);
    var words := if text == "" && tokens != [] then [] else Split(text, {' '});
    RenderedTokens(KEYS, fields);
    assert Distinct(KEYS);
    RenderedWords(tokens, text);
    FreeTokensAppend(tokens, words);
    FreeTokensNone(tokens);
    FreeTokensAll(words);
    assert FreeTokens(tokens + words) == [] + words == words;
    RenderedFree(tokens, text);
    forall k | k in KEYS ensures fields'[k] == Split(fields[k], {':'})[0] {
      RenderedValue(KEYS, fields, words, k);
    }
    forall k | k in KEYS ensures fields'[k] == fields[k] <==> Free(fields[k], {':'}) {
      SplitPieces(fields[k], {':'}, 0);
      if Free(fields[k], {':'}) { SplitLast(fields[k], {':'}); }
    }
  }

  lemma RenderedWords(tokens: seq<string>, text: string)
    requires forall i :: 0 <= i < |tokens| ==> Free(tokens[i], {' '})
    ensures var words := if text == "" && tokens != [] then [] else Split(text, {' '});
            Split(Join(tokens + words, " "), {' '}) == tokens + words
  {
    var words := if text == "" && tokens != [] then [] else Split(text, {' '});
    forall i | 0 <= i < |tokens + words| ensures Free((tokens + words)[i], {' '}) {
      if i >= |tokens| { SplitPieces(text, {' '}, i - |tokens|); }
    }
    SplitJoin(tokens + words, ' ', {' '});
  }

  lemma RenderedFree(tokens: seq<string>, text: string)
    ensures Join(if text == "" && tokens != [] then [] else Split(text, {' '}), " ") == text
  {
    JoinSplit(text, ' ');
  }

  /** What the round trip does not promise: a time of day typed after a field key loses
      everything from its first colon on. */
  lemma TimeOfDayLost(key: string, date: string, rest: string)
    requires key in KEYS && Free(date, {':'})
    ensures Recognised(key + ":" + (date + ":" + rest)) && ValueOf(key + ":" + (date + ":" + rest)) == date
  {
    TokenReadBack(key, date + ":" + rest);
    SplitWord(date, ':', rest, {':'});
    assert date + [':'] + rest == date + ":" + rest;
  }

  /** WHAT A TOKEN SETS. A token sets a key to a value exactly when it is the key, in any case,
      a colon and the value up to the end or the next colon, and the key is one of six. */
  lemma TokenMeans(token: string, key: string, value: string)
    ensures Recognised(token) && KeyOf(token) == key && ValueOf(token) == value <==>
            && key in {"host", "level", "service", "before", "after", "order"}
            && exists p, q :: Reads(token, p, q) && Lower(p) == key && UpToColon(q, value)
  {
    hide Lower, Split;
    if ':' in token {
      var p, q := SplitFirst(token, ':');
      assert Reads(token, p, q);
      forall p', q' | Reads(token, p', q') ensures p' == p && q' == q { OneReading(token, p, q, p', q'); }
      ValueUpTo(q, value);
      assert Split(token, {':'})[1] == Split(q, {':'})[0];
    } else {
      SplitLast(token, {':'});
      assert forall p, q :: !Reads(token, p, q);
    }
  }

  /** The token is `p`, which holds no colon, a colon and `q`. */
  predicate Reads(token: string, p: string, q: string) {
    ':' !in p && token == p + ":" + q
  }

  predicate UpToColon(q: string, value: string) {
    ':' !in value && (q == value || value + ":" <= q)
  }

  lemma OneReading(token: string, p: string, q: string, p': string, q': string)
    requires Reads(token, p, q) && Reads(token, p', q')
    ensures p == p' && q == q'
  {
    assert token[|p|] == ':' && token[|p'|] == ':';
    assert forall i :: 0 <= i < |p| ==> token[i] == p[i] && token[i] != ':';
    assert forall i :: 0 <= i < |p'| ==> token[i] == p'[i] && token[i] != ':';
    assert |p| == |p'|;
    assert p == token[..|p|] == p' && q == token[|p| + 1..] == q';
  }

  lemma ValueUpTo(q: string, value: string)
    ensures Split(q, {':'})[0] == value <==> UpToColon(q, value)
  {
    hide Split;
    if ':' in q {
      var v, rest := SplitFirst(q, ':');
      assert Reads(q, v, rest) && v + ":" <= q;
      if UpToColon(q, value) {
        assert q == value ==> ':' in value;
        assert q == value + ":" + q[|value| + 1..];
        OneReading(q, v, rest, value, q[|value| + 1..]);
      }
    } else {
      SplitLast(q, {':'});
      ColonInside(value, q);
    }
  }

  lemma ColonInside(value: string, q: string)
    ensures value + ":" <= q ==> ':' in q
  {
    assert (value + ":")[|value|] == ':';
  }
}
