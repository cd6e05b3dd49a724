/** Compiling a log filter to a query with positional arguments. The query's WHERE clause is
    kept as its tokens; an independent reader evaluates them from left to right, giving each
    placeholder the next argument. ILIKE follows ClickHouse: `%` any text, `_` any
    character, a backslash escapes `%`, `_` and itself and is an ordinary character
    elsewhere; case is folded for ASCII letters. */
module LogQuery {
  import opened Text
  import opened Wrappers

  datatype LogEntry = LogEntry(timestamp: int, host: string, service: string, level: string, message: string, sourcePath: string)

  /** Times are None when zero. */
  datatype LogFilter = LogFilter(
    limit: int, level: string, host: string, service: string, searchTerm: string,
    before: Option<int>, after: Option<int>, order: string)

  /** The text columns; the timestamp has a token of its own. */
  datatype Column = Host | Level | Service | SourcePath | Message

  datatype Token = Always | And | Or | Open | Close | Col(column: Column) | Timestamp | Equals | Less | Greater | ILIKE | Hole

  datatype Arg = Str(s: string) | Time(t: int)

  // ---------------------------------------------------------------------------
  // ILIKE
  // ---------------------------------------------------------------------------

  const ESCAPABLE: set<char> := {'%', '_', '\\'}

  predicate Like(s: string, p: string)
    decreases |p|, |s|
  {
    if p == "" then s == ""
    else if p[0] == '%' then Like(s, p[1..]) || (s != "" && Like(s[1..], p))
    else if p[0] == '_' then s != "" && Like(s[1..], p[1..])
    else if p[0] == '\\' && |p| >= 2 && p[1] in ESCAPABLE then
      s != "" && LowerChar(s[0]) == LowerChar(p[1]) && Like(s[1..], p[2..])
    else s != "" && LowerChar(s[0]) == LowerChar(p[0]) && Like(s[1..], p[1..])
  }

  function Around(term: string): string {
    "%" + term + "%"
  }

  /** A term no part of which the pattern language reads specially: no `%`, no `_`, no two
      backslashes in a row and none at the end. */
  predicate Plain(t: string) {
    forall i :: 0 <= i < |t| ==> PlainAt(t, i)
  }

  predicate PlainAt(t: string, i: nat)
    requires i < |t|
  {
    t[i] != '%' && t[i] != '_' && (t[i] == '\\' ==> i + 1 < |t| && t[i + 1] != '\\')
  }

  lemma {:induction false} LikeRest(s: string)
    ensures Like(s, "%")
  {
    if s == "" {
      assert Like(s, "%"[1..]);
    } else {
      LikeRest(s[1..]);
    }
  }

  lemma {:induction false} PlainPrefix(s: string, t: string)
    requires Plain(t)
    ensures Like(s, t + "%") <==> Lower(t) <= Lower(s)
  {
    if t == "" {
      LikeRest(s);
      assert t + "%" == "%";
    } else {
      var p := t + "%";
      assert p[1..] == t[1..] + "%";
      assert PlainAt(t, 0) && (t[0] == '\\' ==> PlainAt(t, 1));
      assert p[0] == t[0] && (p[0] == '\\' ==> p[1] == t[1] && t[1] !in ESCAPABLE);
      if s != "" {
        PlainTail(t);
        PlainPrefix(s[1..], t[1..]);
        LowerTail(s);
        LowerTail(t);
      }
    }
  }

  lemma PlainTail(t: string)
    requires t != "" && Plain(t)
    ensures Plain(t[1..])
  {
    forall i | 0 <= i < |t[1..]| ensures PlainAt(t[1..], i) {
      assert PlainAt(t, i + 1);
    }
  }

  lemma LowerTail(s: string)
    requires s != ""
    ensures Lower(s) == [LowerChar(s[0])] + Lower(s[1..]) && Lower(s)[1..] == Lower(s[1..])
  {
  }

  lemma {:induction false} PlainAnywhere(s: string, t: string)
    requires Plain(t)
    ensures Like(s, Around(t)) <==> Contains(Lower(s), Lower(t))
  {
    var p := Around(t);
    assert p[1..] == t + "%";
    PlainPrefix(s, t);
    if s != "" {
      PlainAnywhere(s[1..], t);
      LowerTail(s);
    }
  }

  /** A text the pattern `t%` matches, as unlike `t` itself as possible: wildcards match
      nothing or an `x`, escapes lose their backslash. */
  function Witness(t: string): string {
    if t == "" then ""
    else if t[0] == '%' then Witness(t[1..])
    else if t[0] == '_' then "x" + Witness(t[1..])
    else if t[0] == '\\' && |t| == 1 then "%"
    else if t[0] == '\\' && t[1] in ESCAPABLE then [t[1]] + Witness(t[2..])
    else [t[0]] + Witness(t[1..])
  }

  lemma {:induction false} WitnessMatches(t: string)
    ensures Like(Witness(t), t + "%")
  {
    var p := t + "%";
    if t == "" {
      LikeRest("");
      assert p == "%";
    } else if t[0] == '\\' && |t| == 1 {
      assert p[2..] == "" && Witness(t)[1..] == "";
    } else {
      assert p[0] == t[0] && p[1..] == t[1..] + "%";
      if t[0] == '\\' && t[1] in ESCAPABLE {
        assert p[1] == t[1] && p[2..] == t[2..] + "%";
        WitnessMatches(t[2..]);
      } else {
        assert t[0] == '\\' ==> p[1] == t[1];
        WitnessMatches(t[1..]);
      }
    }
  }

  /** Unless the term is plain, the witness is shorter than it or differs from it. */
  lemma {:induction false} WitnessDiffers(t: string)
    ensures |Witness(t)| <= |t|
    ensures |Witness(t)| == |t| && Lower(Witness(t)) == Lower(t) ==> Plain(t)
  {
    if t != "" {
      var w := Witness(t);
      if t[0] == '\\' && |t| == 1 {
        assert Lower(w)[0] == '%' && Lower(t)[0] == '\\';
      } else if t[0] == '\\' && t[1] in ESCAPABLE {
        WitnessDiffers(t[2..]);
      } else {
        WitnessDiffers(t[1..]);
        if |w| == |t| && Lower(w) == Lower(t) {
          assert Lower(w)[0] == Lower(t)[0];
          assert t[0] != '_';
          LowerTail(t);
          LowerTail(w);
          assert w[1..] == Witness(t[1..]);
          assert t == [t[0]] + t[1..];
          assert Plain(t[1..]);
          PlainCons(t);
        }
      }
    }
  }

  lemma PlainCons(t: string)
    requires t != "" && Plain(t[1..]) && t[0] != '%' && t[0] != '_'
    requires t[0] == '\\' ==> |t| > 1 && t[1] !in ESCAPABLE
    ensures Plain(t)
  {
    forall i | 0 <= i < |t| ensures PlainAt(t, i) {
      if i > 0 {
        assert PlainAt(t[1..], i - 1);
      }
    }
  }

  lemma {:induction false} ContainsLength(s: string, t: string)
    requires Contains(s, t)
    ensures |t| <= |s| && (|t| == |s| ==> s == t)
  {
    if !(t <= s) {
      ContainsLength(s[1..], t);
    }
  }

  /** EXACT CONDITION. The `%term%` match is case-insensitive substring search on every text
      exactly when the term is plain. */
  lemma SubstringSearch(t: string)
    ensures (forall s :: Like(s, Around(t)) <==> Contains(Lower(s), Lower(t))) <==> Plain(t)
  {
    if Plain(t) {
      forall s ensures Like(s, Around(t)) <==> Contains(Lower(s), Lower(t)) {
        PlainAnywhere(s, t);
      }
    } else {
      var w := Witness(t);
      WitnessMatches(t);
      WitnessDiffers(t);
      assert Around(t)[1..] == t + "%" && Around(t)[0] == '%';
      assert Like(w, Around(t));
      if Contains(Lower(w), Lower(t)) {
        ContainsLength(Lower(w), Lower(t));
        assert false;
      }
    }
  }

  // ---------------------------------------------------------------------------
  // Evaluating a WHERE clause
  // ---------------------------------------------------------------------------

  function TextOf(row: LogEntry, c: Column): string {
    match c
    case Host => row.host
    case Level => row.level
    case Service => row.service
    case SourcePath => row.sourcePath
    case Message => row.message
  }

  /** One comparison: a column, an operator and a placeholder that takes the next argument. */
  function EvalTest(toks: seq<Token>, args: seq<Arg>, row: LogEntry): (r: Option<(bool, seq<Token>, seq<Arg>)>)
    ensures r.Some? ==> |r.value.1| < |toks|
  {
    if |toks| < 3 || toks[2] != Hole || args == [] then None
    else
      var left, op, arg := toks[0], toks[1], args[0];
      if left == Timestamp && arg.Time? && op == Less then Some((row.timestamp < arg.t, toks[3..], args[1..]))
      else if left == Timestamp && arg.Time? && op == Greater then Some((row.timestamp > arg.t, toks[3..], args[1..]))
      else if left.Col? && arg.Str? && op == Equals then Some((TextOf(row, left.column) == arg.s, toks[3..], args[1..]))
      else if left.Col? && arg.Str? && op == ILIKE then Some((Like(TextOf(row, left.column), arg.s), toks[3..], args[1..]))
      else None
  }

  /** Comparisons joined by OR, up to the closing parenthesis. */
  function EvalAny(toks: seq<Token>, args: seq<Arg>, row: LogEntry): (r: Option<(bool, seq<Token>, seq<Arg>)>)
    ensures r.Some? ==> |r.value.1| < |toks|
    decreases |toks|
  {
    match EvalTest(toks, args, row)
    case None => None
    case Some((b, rest, args')) =>
      if rest == [] then None
      else if rest[0] == Close then Some((b, rest[1..], args'))
      else if rest[0] == Or then
        match EvalAny(rest[1..], args', row)
        case None => None
        case Some((b', rest', args'')) => Some((b || b', rest', args''))
      else None
  }

  function EvalTerm(toks: seq<Token>, args: seq<Arg>, row: LogEntry): (r: Option<(bool, seq<Token>, seq<Arg>)>)
    ensures r.Some? ==> |r.value.1| < |toks|
  {
    if toks == [] then None
    else if toks[0] == Always then Some((true, toks[1..], args))
    else if toks[0] == Open then EvalAny(toks[1..], args, row)
    else EvalTest(toks, args, row)
  }

  /** Terms joined by AND to the end of the clause: the verdict and the unused arguments. */
  function EvalWhere(toks: seq<Token>, args: seq<Arg>, row: LogEntry): Option<(bool, seq<Arg>)>
    decreases |toks|
  {
    match EvalTerm(toks, args, row)
    case None => None
    case Some((b, rest, args')) =>
      if rest == [] then Some((b, args'))
      else if rest[0] == And then
        match EvalWhere(rest[1..], args', row)
        case None => None
        case Some((b', args'')) => Some((b && b', args''))
      else None
  }

  // ---------------------------------------------------------------------------
  // What a filter means
  // ---------------------------------------------------------------------------

  predicate Meets(f: LogFilter, row: LogEntry) {
    && (f.host != "" ==> row.host == f.host)
    && (f.level != "" && f.level != "ALL" ==> row.level == f.level)
    && (f.service != "" ==> Like(row.service, Around(f.service)) || Like(row.sourcePath, Around(f.service)))
    && (f.before.Some? ==> row.timestamp < f.before.value)
    && (f.after.Some? ==> row.timestamp > f.after.value)
    && (f.searchTerm != "" ==>
          || Like(row.message, Around(f.searchTerm))
          || Like(row.sourcePath, Around(f.searchTerm))
          || Like(row.host, Around(f.searchTerm)))
  }

  /** A conjunct AND'ed to the clause, the arguments it takes, and what it says of a row. */
  ghost predicate Conjunct(toks: seq<Token>, args: seq<Arg>, row: LogEntry, verdict: bool) {
    forall moreToks: seq<Token>, moreArgs: seq<Arg> {:trigger EvalTerm(toks + moreToks, args + moreArgs, row)} ::
      EvalTerm(toks + moreToks, args + moreArgs, row) == Some((verdict, moreToks, moreArgs))
  }

  /** The clause evaluates to the verdict with no argument left over, and stays so in front
      of more arguments and another AND. */
  ghost predicate Clause(toks: seq<Token>, args: seq<Arg>, row: LogEntry, verdict: bool) {
    && toks != []
    && EvalWhere(toks, args, row) == Some((verdict, []))
    && forall t: seq<Token>, a: seq<Arg> {:trigger EvalWhere(toks + [And] + t, args + a, row)} ::
         EvalWhere(toks + [And] + t, args + a, row) ==
         match EvalWhere(t, a, row) {
           case None => None
           case Some((b, rest)) => Some((verdict && b, rest))
         }
  }

  lemma ClauseStart(row: LogEntry)
    ensures Clause([Always], [], row, true)
  {
    forall t: seq<Token>, a: seq<Arg>
      ensures EvalWhere([Always] + [And] + t, [] + a, row) ==
              match EvalWhere(t, a, row) { case None => None case Some((b, rest)) => Some((true && b, rest)) }
    {
      var toks := [Always] + [And] + t;
      assert toks[1..] == [And] + t && ([And] + t)[1..] == t && [] + a == a;
    }
  }

  /** Appending an AND'ed conjunct and its arguments conjoins its meaning. */
  lemma ClauseExtend(toks: seq<Token>, args: seq<Arg>, row: LogEntry, verdict: bool, more: seq<Token>, moreArgs: seq<Arg>, says: bool)
    requires Clause(toks, args, row, verdict) && Conjunct(more, moreArgs, row, says)
    ensures Clause(toks + [And] + more, args + moreArgs, row, verdict && says)
  {
    ConjunctAlone(more, moreArgs, row, says);
    forall t: seq<Token>, a: seq<Arg>
      ensures EvalWhere(toks + [And] + more + [And] + t, args + moreArgs + a, row) ==
              match EvalWhere(t, a, row) { case None => None case Some((b, rest)) => Some((verdict && says && b, rest)) }
    {
      assert toks + [And] + more + [And] + t == toks + [And] + (more + ([And] + t));
      assert args + moreArgs + a == args + (moreArgs + a);
      assert EvalTerm(more + ([And] + t), moreArgs + a, row) == Some((says, [And] + t, a));
      assert ([And] + t)[1..] == t;
    }
  }

  lemma ConjunctAlone(more: seq<Token>, moreArgs: seq<Arg>, row: LogEntry, says: bool)
    requires Conjunct(more, moreArgs, row, says)
    ensures EvalWhere(more, moreArgs, row) == Some((says, []))
  {
    assert more + [] == more && moreArgs + [] == moreArgs;
    assert EvalTerm(more + [], moreArgs + [], row) == Some((says, [], []));
  }

  // ---------------------------------------------------------------------------
  // The conjuncts the builder appends
  // ---------------------------------------------------------------------------

  function EqualsTo(c: Column): seq<Token> {
    [Col(c), Equals, Hole]
  }

  /** `(c1 ILIKE ? OR c2 ILIKE ? ...)`. */
  function AnyLike(cs: seq<Column>): seq<Token>
    requires cs != []
  {
    [Open] + LikeChain(cs)
  }

  function LikeChain(cs: seq<Column>): seq<Token>
    requires cs != []
  {
    [Col(cs[0]), ILIKE, Hole] + if |cs| == 1 then [Close] else [Or] + LikeChain(cs[1..])
  }

  predicate SomeLike(row: LogEntry, cs: seq<Column>, pattern: string) {
    exists i :: 0 <= i < |cs| && Like(TextOf(row, cs[i]), pattern)
  }

  function Copies(pattern: string, n: nat): (r: seq<Arg>)
    ensures |r| == n
  {
    if n == 0 then [] else [Str(pattern)] + Copies(pattern, n - 1)
  }

  lemma EqualsConjunct(c: Column, value: string, row: LogEntry)
    ensures Conjunct(EqualsTo(c), [Str(value)], row, TextOf(row, c) == value)
  {
  }

  lemma BeforeConjunct(t: int, row: LogEntry)
    ensures Conjunct([Timestamp, Less, Hole], [Time(t)], row, row.timestamp < t)
    ensures Conjunct([Timestamp, Greater, Hole], [Time(t)], row, row.timestamp > t)
  {
  }

  lemma {:induction false} ChainEval(cs: seq<Column>, pattern: string, row: LogEntry, t: seq<Token>, a: seq<Arg>)
    requires cs != []
    ensures EvalAny(LikeChain(cs) + t, Copies(pattern, |cs|) + a, row) == Some((SomeLike(row, cs, pattern), t, a))
  {
    hide Like, SomeLike;
    ChainHead(cs, pattern, row, t, a);
    if |cs| == 1 {
      OneLike(row, cs, pattern);
    } else {
      ChainEval(cs[1..], pattern, row, t, a);
      SomeLikeStep(row, cs, pattern);
    }
  }

  /** The first comparison of the chain, and what is left to read after it. */
  lemma ChainHead(cs: seq<Column>, pattern: string, row: LogEntry, t: seq<Token>, a: seq<Arg>)
    requires cs != []
    ensures var first := Like(TextOf(row, cs[0]), pattern);
            EvalAny(LikeChain(cs) + t, Copies(pattern, |cs|) + a, row) ==
            if |cs| == 1 then Some((first, t, a))
            else
              match EvalAny(LikeChain(cs[1..]) + t, Copies(pattern, |cs| - 1) + a, row)
              case None => None
              case Some((b, rest, args)) => Some((first || b, rest, args))
  {
    hide Like, EvalTest, TextOf;
    var more := if |cs| == 1 then [Close] + t else [Or] + (LikeChain(cs[1..]) + t);
    var args := Copies(pattern, |cs| - 1) + a;
    assert LikeChain(cs) + t == [Col(cs[0]), ILIKE, Hole] + more;
    assert Copies(pattern, |cs|) + a == [Str(pattern)] + args;
    LikeTest(cs[0], pattern, row, more, args);
    assert more[1..] == if |cs| == 1 then t else LikeChain(cs[1..]) + t;
    if |cs| == 1 {
      assert Copies(pattern, 0) + a == a;
    }
  }

  lemma LikeTest(c: Column, pattern: string, row: LogEntry, more: seq<Token>, args: seq<Arg>)
    ensures EvalTest([Col(c), ILIKE, Hole] + more, [Str(pattern)] + args, row) == Some((Like(TextOf(row, c), pattern), more, args))
  {
    hide Like;
    assert ([Col(c), ILIKE, Hole] + more)[3..] == more && ([Str(pattern)] + args)[1..] == args;
  }

  lemma OneLike(row: LogEntry, cs: seq<Column>, pattern: string)
    requires |cs| == 1
    ensures SomeLike(row, cs, pattern) <==> Like(TextOf(row, cs[0]), pattern)
  {
    hide Like;
    if Like(TextOf(row, cs[0]), pattern) {
      assert SomeLike(row, cs, pattern);
    }
  }

  lemma SomeLikeStep(row: LogEntry, cs: seq<Column>, pattern: string)
    requires |cs| > 1
    ensures SomeLike(row, cs, pattern) <==> Like(TextOf(row, cs[0]), pattern) || SomeLike(row, cs[1..], pattern)
  {
    hide Like;
    if SomeLike(row, cs, pattern) {
      var i :| 0 <= i < |cs| && Like(TextOf(row, cs[i]), pattern);
      if i > 0 { assert cs[1..][i - 1] == cs[i]; }
    }
    if SomeLike(row, cs[1..], pattern) {
      var i :| 0 <= i < |cs[1..]| && Like(TextOf(row, cs[1..][i]), pattern);
      assert Like(TextOf(row, cs[i + 1]), pattern);
    }
    if Like(TextOf(row, cs[0]), pattern) {
      assert SomeLike(row, cs, pattern);
    }
  }

  lemma AnyLikeConjunct(cs: seq<Column>, pattern: string, row: LogEntry)
    requires cs != []
    ensures Conjunct(AnyLike(cs), Copies(pattern, |cs|), row, SomeLike(row, cs, pattern))
  {
    hide Like, SomeLike, LikeChain, EvalAny, EvalTest, Copies;
    forall t: seq<Token>, a: seq<Arg>
      ensures EvalTerm(AnyLike(cs) + t, Copies(pattern, |cs|) + a, row) == Some((SomeLike(row, cs, pattern), t, a))
    {
      ChainEval(cs, pattern, row, t, a);
      assert (AnyLike(cs) + t)[1..] == LikeChain(cs) + t && (AnyLike(cs) + t)[0] == Open;
    }
  }

  const SERVICE_COLUMNS: seq<Column> := [Service, SourcePath]
  const SEARCH_COLUMNS: seq<Column> := [Message, SourcePath, Host]

  lemma ServiceMeaning(row: LogEntry, pattern: string)
    ensures SomeLike(row, SERVICE_COLUMNS, pattern) <==> Like(row.service, pattern) || Like(row.sourcePath, pattern)
    ensures SomeLike(row, SEARCH_COLUMNS, pattern) <==>
            Like(row.message, pattern) || Like(row.sourcePath, pattern) || Like(row.host, pattern)
  {
    hide Like;
    assert SERVICE_COLUMNS[0] == Service && SERVICE_COLUMNS[1] == SourcePath;
    assert SEARCH_COLUMNS[0] == Message && SEARCH_COLUMNS[1] == SourcePath && SEARCH_COLUMNS[2] == Host;
    if Like(row.service, pattern) { assert Like(TextOf(row, SERVICE_COLUMNS[0]), pattern); }
    if Like(row.sourcePath, pattern) {
      assert Like(TextOf(row, SERVICE_COLUMNS[1]), pattern) && Like(TextOf(row, SEARCH_COLUMNS[1]), pattern);
    }
    if Like(row.message, pattern) { assert Like(TextOf(row, SEARCH_COLUMNS[0]), pattern); }
    if Like(row.host, pattern) { assert Like(TextOf(row, SEARCH_COLUMNS[2]), pattern); }
  }

  // ---------------------------------------------------------------------------
  // The builder
  // ---------------------------------------------------------------------------

  /** FILTER COMPILATION PRESERVES MEANING. Evaluated against any row, the built clause uses
      up its arguments exactly and accepts the row exactly when it meets every set filter
      field. */
  method BuildQuery(f: LogFilter) returns (query: seq<Token>, args: seq<Arg>, descending: bool, limit: int)
    ensures forall row: LogEntry :: EvalWhere(query, args, row) == Some((Meets(f, row), []))
    ensures limit == if f.limit <= 0 then 100 else f.limit
    ensures descending <==> f.order != "ASC"
  {
    hide Like, EvalWhere, EvalTerm, Clause, Conjunct, SomeLike, AnyLike, Around;
    query, args := [Always], [];
    forall row: LogEntry ensures Clause(query, args, row, true) { ClauseStart(row); }
    if f.host != "" {
      forall row: LogEntry ensures Clause(query + [And] + EqualsTo(Host), args + [Str(f.host)], row, row.host == f.host) {
        EqualsConjunct(Host, f.host, row);
        ClauseExtend(query, args, row, true, EqualsTo(Host), [Str(f.host)], row.host == f.host);
      }
      query, args := query + [And] + EqualsTo(Host), args + [Str(f.host)];
    }
    ghost var m1 := (row: LogEntry) => f.host != "" ==> row.host == f.host;
    assert forall row: LogEntry :: Clause(query, args, row, m1(row));
    if f.level != "" && f.level != "ALL" {
      forall row: LogEntry ensures Clause(query + [And] + EqualsTo(Level), args + [Str(f.level)], row, m1(row) && row.level == f.level) {
        EqualsConjunct(Level, f.level, row);
        ClauseExtend(query, args, row, m1(row), EqualsTo(Level), [Str(f.level)], row.level == f.level);
      }
      query, args := query + [And] + EqualsTo(Level), args + [Str(f.level)];
    }
    ghost var m2 := (row: LogEntry) => m1(row) && (f.level != "" && f.level != "ALL" ==> row.level == f.level);
    assert forall row: LogEntry :: Clause(query, args, row, m2(row));
    query, args := AddLikes(query, args, SERVICE_COLUMNS, f.service, m2);
    ghost var m3 := (row: LogEntry) => m2(row) && (f.service != "" ==> SomeLike(row, SERVICE_COLUMNS, Around(f.service)));
    assert forall row: LogEntry :: Clause(query, args, row, m3(row));
    query, args := AddTimes(query, args, f.before, f.after, m3);
    ghost var m4 := (row: LogEntry) => m3(row) && (f.before.Some? ==> row.timestamp < f.before.value)
                                       && (f.after.Some? ==> row.timestamp > f.after.value);
    assert forall row: LogEntry :: Clause(query, args, row, m4(row));
    query, args := AddLikes(query, args, SEARCH_COLUMNS, f.searchTerm, m4);
    forall row: LogEntry ensures EvalWhere(query, args, row) == Some((Meets(f, row), [])) {
      ServiceMeaning(row, Around(f.service));
      ServiceMeaning(row, Around(f.searchTerm));
      ClauseVerdict(query, args, row, m4(row) && (f.searchTerm != "" ==> SomeLike(row, SEARCH_COLUMNS, Around(f.searchTerm))));
    }
    descending := f.order != "ASC";
    limit := if f.limit <= 0 then 100 else f.limit;
  }

  lemma ClauseVerdict(query: seq<Token>, args: seq<Arg>, row: LogEntry, verdict: bool)
    requires Clause(query, args, row, verdict)
    ensures EvalWhere(query, args, row) == Some((verdict, []))
  {
  }

  /** Appends `(c1 ILIKE ? OR ...)` with one copy of the pattern per column, if the term is set. */
  method AddLikes(query: seq<Token>, args: seq<Arg>, cs: seq<Column>, term: string, ghost meaning: LogEntry -> bool)
    returns (query': seq<Token>, args': seq<Arg>)
    requires cs != []
    requires forall row: LogEntry :: Clause(query, args, row, meaning(row))
    ensures forall row: LogEntry :: Clause(query', args', row, meaning(row) && (term != "" ==> SomeLike(row, cs, Around(term))))
  {
    hide Like, EvalWhere, EvalTerm, Clause, Conjunct, SomeLike, AnyLike, Around, Copies;
    query', args' := query, args;
    if term != "" {
      var pattern := Around(term);
      query', args' := query + [And] + AnyLike(cs), args + Copies(pattern, |cs|);
      forall row: LogEntry ensures Clause(query', args', row, meaning(row) && SomeLike(row, cs, pattern)) {
        AnyLikeConjunct(cs, pattern, row);
        ClauseExtend(query, args, row, meaning(row), AnyLike(cs), Copies(pattern, |cs|), SomeLike(row, cs, pattern));
      }
    }
  }

  method AddTimes(query: seq<Token>, args: seq<Arg>, before: Option<int>, after: Option<int>, ghost meaning: LogEntry -> bool)
    returns (query': seq<Token>, args': seq<Arg>)
    requires forall row: LogEntry :: Clause(query, args, row, meaning(row))
    ensures forall row: LogEntry :: Clause(query', args', row,
              meaning(row) && (before.Some? ==> row.timestamp < before.value) && (after.Some? ==> row.timestamp > after.value))
  {
    hide EvalWhere, EvalTerm, Clause, Conjunct;
    query', args' := query, args;
    if before.Some? {
      var test, t := [Timestamp, Less, Hole], before.value;
      forall row: LogEntry ensures Clause(query' + [And] + test, args' + [Time(t)], row, meaning(row) && row.timestamp < t) {
        BeforeConjunct(t, row);
        ClauseExtend(query', args', row, meaning(row), test, [Time(t)], row.timestamp < t);
      }
      query', args' := query' + [And] + test, args' + [Time(t)];
    }
    ghost var m := (row: LogEntry) => meaning(row) && (before.Some? ==> row.timestamp < before.value);
    assert forall row: LogEntry :: Clause(query', args', row, m(row));
    if after.Some? {
      var test, t := [Timestamp, Greater, Hole], after.value;
      forall row: LogEntry ensures Clause(query' + [And] + test, args' + [Time(t)], row, m(row) && row.timestamp > t) {
        BeforeConjunct(t, row);
        ClauseExtend(query', args', row, m(row), test, [Time(t)], row.timestamp > t);
      }
      query', args' := query' + [And] + test, args' + [Time(t)];
    }
    forall row: LogEntry
      ensures Clause(query', args', row,
                meaning(row) && (before.Some? ==> row.timestamp < before.value) && (after.Some? ==> row.timestamp > after.value))
    {
      assert Clause(query', args', row, m(row) && (after.Some? ==> row.timestamp > after.value));
    }
  }
}
