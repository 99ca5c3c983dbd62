/**
 * The two string utilities of the command-line front end: splitting a string
 * on a delimiter (`Utils::split_string`) and turning a comma-separated list of
 * XVA names into a set of kinds (`Utils::parse_type`).
 *
 * `std::string::find` is modelled by `FindFrom`, `split_string` by the method
 * `SplitString`, which is proved against the specification function `Split`;
 * `parse_type` is the method `ParseType`, proved against `Parse`.
 * The by-reference out-parameters of both C++ functions are modelled as an
 * input value (their contents on entry) and a returned value (their contents
 * on exit).
 */
module Utils {

  import opened Optional
  import opened Xva

  // ---------------------------------------------------------------------------
  // Occurrences of a delimiter and std::string::find
  // ---------------------------------------------------------------------------

  /** `d` occurs in `s` starting at index `j`. */
  predicate OccursAt(s: string, d: string, j: nat)
  {
    j + |d| <= |s| && s[j..j + |d|] == d
  }

  /** `d` occurs somewhere in `s`. */
  ghost predicate Contains(s: string, d: string)
  {
    exists j: nat :: OccursAt(s, d, j)
  }

  /**
   * `s.find(d, from)`: the first index at or after `from` where `d` occurs,
   * or `None` for `std::string::npos`.
   */
  function FindFrom(s: string, d: string, from: nat): Option<nat>
    decreases |s| - from
  {
    if from + |d| > |s| then None
    else if s[from..from + |d|] == d then Some(from)
    else FindFrom(s, d, from + 1)
  }

  /**
   * `find` reports the first occurrence at or after `from`, and `npos`
   * exactly when there is none.
   */
  lemma {:induction false} FindFromSpec(s: string, d: string, from: nat)
    ensures var r := FindFrom(s, d, from);
      r.Some? ==> (from <= r.value && OccursAt(s, d, r.value)
        && forall j: nat :: from <= j < r.value ==> !OccursAt(s, d, j))
    ensures FindFrom(s, d, from).None? ==> forall j: nat :: from <= j ==> !OccursAt(s, d, j)
    decreases |s| - from
  {
    if from + |d| <= |s| && s[from..from + |d|] != d {
      FindFromSpec(s, d, from + 1);
    }
  }

  /**
   * The bounds part of `FindFromSpec` on its own: a reported match lies
   * inside `s`, at or after `from`. Callers that only slice at the match
   * use this lighter fact.
   */
  lemma FindFromBounds(s: string, d: string, from: nat)
    ensures FindFrom(s, d, from).Some? ==>
      from <= FindFrom(s, d, from).value && FindFrom(s, d, from).value + |d| <= |s|
  {
    FindFromSpec(s, d, from);
  }

  /**
   * With an empty delimiter `find` reports a match at the very position it
   * starts from, so the scanning loop of `split_string` would set `start` to
   * `end + 0 == start` for ever: the delimiter must be non-empty.
   */
  lemma EmptyDelimiterNeverAdvances(s: string, from: nat)
    requires from <= |s|
    ensures FindFrom(s, [], from) == Some(from)
  {
  }

  // ---------------------------------------------------------------------------
  // Specification of splitting and joining
  // ---------------------------------------------------------------------------

  /** The tokens `split_string` appends for the part of `s` from `start` on. */
  function SplitFrom(s: string, d: string, start: nat): (r: seq<string>)
    requires |d| > 0 && start <= |s|
    ensures |r| >= 1
    decreases |s| - start
  {
    FindFromBounds(s, d, start);
    match FindFrom(s, d, start)
    case None => [s[start..]]
    case Some(e) => [s[start..e]] + SplitFrom(s, d, e + |d|)
  }

  /** The tokens `split_string(s, d, tokens)` appends to `tokens`. */
  function Split(s: string, d: string): (r: seq<string>)
    requires |d| > 0
  {
    SplitFrom(s, d, 0)
  }

  /** The tokens glued back together with `d` between neighbours. */
  function Join(toks: seq<string>, d: string): string
  {
    if |toks| == 0 then []
    else if |toks| == 1 then toks[0]
    else toks[0] + d + Join(toks[1..], d)
  }

  /**
   * The number of non-overlapping occurrences of `d` in `s` from index `i`
   * on, counted left to right: a match consumes its characters.
   */
  function CountFrom(s: string, d: string, i: nat): nat
    requires |d| > 0
    decreases |s| - i
  {
    if i + |d| > |s| then 0
    else if OccursAt(s, d, i) then 1 + CountFrom(s, d, i + |d|)
    else CountFrom(s, d, i + 1)
  }

  // ---------------------------------------------------------------------------
  // Utils::split_string
  // ---------------------------------------------------------------------------

  /**
   * `split_string(str, delim, tokens)`: appends to `tokens` the pieces of
   * `str` between the non-overlapping occurrences of `delim`. The earlier
   * contents of `tokens` are kept as a prefix.
   */
  method SplitString(str: string, delim: string, tokens: seq<string>) returns (result: seq<string>)
    requires |delim| > 0
    ensures result == tokens + Split(str, delim)
  {
    result := tokens;
    var start: nat := 0;
    var end := FindFrom(str, delim, 0);
    while end.Some?
      invariant start <= |str|
      invariant end == FindFrom(str, delim, start)
      invariant result + SplitFrom(str, delim, start) == tokens + Split(str, delim)
      decreases |str| - start
    {
      FindFromBounds(str, delim, start);
      result := result + [str[start..end.value]];
      start := end.value + |delim|;
      end := FindFrom(str, delim, start);
    }
    // `end` is npos here, so `substr(start, end)` is the whole remainder
    result := result + [str[start..]];
  }

  // ---------------------------------------------------------------------------
  // Properties of Split
  // ---------------------------------------------------------------------------

  lemma {:induction false} JoinSplitFrom(s: string, d: string, start: nat)
    requires |d| > 0 && start <= |s|
    ensures Join(SplitFrom(s, d, start), d) == s[start..]
    decreases |s| - start
  {
    FindFromSpec(s, d, start);
    match FindFrom(s, d, start)
    case None =>
    case Some(e) =>
      var rest := SplitFrom(s, d, e + |d|);
      JoinSplitFrom(s, d, e + |d|);
      assert SplitFrom(s, d, start) == [s[start..e]] + rest;
      assert s[start..] == s[start..e] + d + s[e + |d|..];
  }

  /** Joining the tokens with the delimiter gives back the split string exactly. */
  lemma JoinSplit(s: string, d: string)
    requires |d| > 0
    ensures Join(Split(s, d), d) == s
  {
    JoinSplitFrom(s, d, 0);
  }

  lemma {:induction false} CountSkipsNonOccurrences(s: string, d: string, i: nat, e: nat)
    requires |d| > 0 && i <= e
    requires forall j: nat :: i <= j < e ==> !OccursAt(s, d, j)
    ensures CountFrom(s, d, i) == CountFrom(s, d, e)
    decreases e - i
  {
    if i < e && i + |d| <= |s| {
      CountSkipsNonOccurrences(s, d, i + 1, e);
    }
  }

  lemma {:induction false} CountWithoutOccurrences(s: string, d: string, i: nat)
    requires |d| > 0
    requires forall j: nat :: i <= j ==> !OccursAt(s, d, j)
    ensures CountFrom(s, d, i) == 0
    decreases |s| - i
  {
    if i + |d| <= |s| {
      CountWithoutOccurrences(s, d, i + 1);
    }
  }

  lemma {:induction false} SplitFromCount(s: string, d: string, start: nat)
    requires |d| > 0 && start <= |s|
    ensures |SplitFrom(s, d, start)| == 1 + CountFrom(s, d, start)
    decreases |s| - start
  {
    FindFromSpec(s, d, start);
    match FindFrom(s, d, start)
    case None =>
      CountWithoutOccurrences(s, d, start);
    case Some(e) =>
      CountSkipsNonOccurrences(s, d, start, e);
      assert CountFrom(s, d, e) == 1 + CountFrom(s, d, e + |d|);
      SplitFromCount(s, d, e + |d|);
      assert SplitFrom(s, d, start) == [s[start..e]] + SplitFrom(s, d, e + |d|);
  }

  /**
   * There is one token more than there are non-overlapping occurrences of the
   * delimiter; in particular the empty string gives exactly one (empty) token.
   */
  lemma SplitCount(s: string, d: string)
    requires |d| > 0
    ensures |Split(s, d)| == 1 + CountFrom(s, d, 0)
    ensures s == [] ==> Split(s, d) == [[]]
  {
    SplitFromCount(s, d, 0);
  }

  lemma OccursInSlice(s: string, d: string, a: nat, b: nat, j: nat)
    requires a <= b <= |s|
    requires OccursAt(s[a..b], d, j)
    ensures OccursAt(s, d, a + j) && a + j + |d| <= b
  {
    var u, v := s[a..b][j..j + |d|], s[a + j..a + j + |d|];
    forall i | 0 <= i < |d|
      ensures u[i] == v[i]
    {
    }
    assert u == v;
  }

  lemma {:induction false} SplitFromTokensFree(s: string, d: string, start: nat)
    requires |d| > 0 && start <= |s|
    ensures forall k :: 0 <= k < |SplitFrom(s, d, start)| ==> !Contains(SplitFrom(s, d, start)[k], d)
    decreases |s| - start
  {
    FindFromSpec(s, d, start);
    var r := SplitFrom(s, d, start);
    match FindFrom(s, d, start)
    case None =>
      assert s[start..] == s[start..|s|];
      forall j: nat | OccursAt(s[start..|s|], d, j)
        ensures false
      {
        OccursInSlice(s, d, start, |s|, j);
      }
    case Some(e) =>
      forall j: nat | OccursAt(s[start..e], d, j)
        ensures false
      {
        OccursInSlice(s, d, start, e, j);
      }
      SplitFromTokensFree(s, d, e + |d|);
      assert r == [s[start..e]] + SplitFrom(s, d, e + |d|);
  }

  /** No token contains the delimiter. */
  lemma SplitTokensFree(s: string, d: string)
    requires |d| > 0
    ensures forall k :: 0 <= k < |Split(s, d)| ==> !Contains(Split(s, d)[k], d)
  {
    SplitFromTokensFree(s, d, 0);
  }

  /** A string is split into itself alone exactly when the delimiter does not occur in it. */
  lemma SplitWithoutDelimiter(s: string, d: string)
    requires |d| > 0
    ensures Split(s, d) == [s] <==> !Contains(s, d)
  {
    FindFromSpec(s, d, 0);
    match FindFrom(s, d, 0)
    case None =>
      assert s[0..] == s;
    case Some(e) =>
      assert Contains(s, d) by { assert OccursAt(s, d, e); }
  }

  lemma OccursAtShift(p: string, y: string, d: string, j: nat)
    ensures OccursAt(p + y, d, |p| + j) <==> OccursAt(y, d, j)
  {
  }

  /** Searching `p + y` from inside `y` finds what searching `y` finds, shifted by `|p|`. */
  lemma FindFromShift(p: string, y: string, d: string, k: nat)
    ensures FindFrom(p + y, d, |p| + k) ==
      (match FindFrom(y, d, k) case None => None case Some(e) => Some(|p| + e))
  {
    FindFromSpec(y, d, k);
    FindFromSpec(p + y, d, |p| + k);
    forall j: nat
      ensures OccursAt(p + y, d, |p| + j) <==> OccursAt(y, d, j)
    {
      OccursAtShift(p, y, d, j);
    }
    forall j: nat | |p| <= j
      ensures OccursAt(p + y, d, j) <==> OccursAt(y, d, j - |p|)
    {
      OccursAtShift(p, y, d, j - |p|);
    }
  }

  lemma SliceOfConcat(p: string, y: string, a: nat, b: nat)
    requires a <= b <= |y|
    ensures (p + y)[|p| + a..|p| + b] == y[a..b]
    ensures (p + y)[|p| + a..] == y[a..]
  {
  }

  lemma {:induction false} SplitFromShift(p: string, y: string, d: string, k: nat)
    requires |d| > 0 && k <= |y|
    ensures SplitFrom(p + y, d, |p| + k) == SplitFrom(y, d, k)
    decreases |y| - k
  {
    var s, i := p + y, |p| + k;
    FindFromBounds(y, d, k);
    FindFromShift(p, y, d, k);
    match FindFrom(y, d, k)
    case None =>
      assert FindFrom(s, d, i) == None;
      SliceOfConcat(p, y, k, k);
      assert SplitFrom(s, d, i) == [s[i..]];
      assert SplitFrom(y, d, k) == [y[k..]];
    case Some(e) =>
      assert FindFrom(s, d, i) == Some(|p| + e);
      SliceOfConcat(p, y, k, e);
      SplitFromShift(p, y, d, e + |d|);
      var rest := SplitFrom(y, d, e + |d|);
      assert SplitFrom(s, d, |p| + (e + |d|)) == rest;
      assert SplitFrom(s, d, i) == [y[k..e]] + rest;
      assert SplitFrom(y, d, k) == [y[k..e]] + rest;
  }

  /**
   * When the first occurrence of the delimiter is right after `x`, the first
   * token is `x` and the rest is the split of what follows the delimiter.
   */
  lemma SplitCons(x: string, d: string, y: string)
    requires |d| > 0
    requires forall j: nat :: j < |x| ==> !OccursAt(x + d + y, d, j)
    ensures Split(x + d + y, d) == [x] + Split(y, d)
  {
    FindFromSpec(x + d + y, d, 0);
    var s := x + d + y;
    assert OccursAt(s, d, |x|) by { assert s[|x|..|x| + |d|] == d; }
    assert FindFrom(s, d, 0) == Some(|x|);
    assert s[0..|x|] == x;
    assert s == (x + d) + y;
    SplitFromShift(x + d, y, d, 0);
  }

  /** A leading delimiter produces an empty first token. */
  lemma SplitLeadingDelimiter(d: string, y: string)
    requires |d| > 0
    ensures Split(d + y, d) == [[]] + Split(y, d)
  {
    assert [] + d + y == d + y;
    SplitCons([], d, y);
  }

  /** Two adjacent delimiters produce an empty token between them. */
  lemma SplitAdjacentDelimiters(x: string, d: string, y: string)
    requires |d| > 0
    requires forall j: nat :: j < |x| ==> !OccursAt(x + d + (d + y), d, j)
    ensures Split(x + d + (d + y), d) == [x, []] + Split(y, d)
  {
    SplitCons(x, d, d + y);
    SplitLeadingDelimiter(d, y);
  }

  // ---------------------------------------------------------------------------
  // Single-character delimiters (parse_type splits on ",")
  // ---------------------------------------------------------------------------

  lemma ContainsSingle(s: string, c: char)
    ensures Contains(s, [c]) <==> c in s
  {
    if c in s {
      var j :| 0 <= j < |s| && s[j] == c;
      assert OccursAt(s, [c], j);
    }
    if Contains(s, [c]) {
      var j: nat :| OccursAt(s, [c], j);
      assert s[j..j + 1][0] == s[j];
    }
  }

  lemma {:induction false} JoinAppend(toks: seq<string>, t: string, d: string)
    requires |toks| >= 1
    ensures Join(toks + [t], d) == Join(toks, d) + d + t
  {
    if |toks| > 1 {
      assert (toks + [t])[1..] == toks[1..] + [t];
      JoinAppend(toks[1..], t, d);
    }
  }

  /**
   * For a one-character delimiter, `Split` is the only non-empty token
   * sequence that joins back to the string and whose tokens are free of the
   * delimiter.
   */
  lemma {:induction false} SplitJoinSingle(toks: seq<string>, c: char)
    requires |toks| >= 1
    requires forall k :: 0 <= k < |toks| ==> c !in toks[k]
    ensures Split(Join(toks, [c]), [c]) == toks
  {
    if |toks| == 1 {
      ContainsSingle(toks[0], c);
      SplitWithoutDelimiter(toks[0], [c]);
    } else {
      var x, y := toks[0], Join(toks[1..], [c]);
      assert Join(toks, [c]) == x + [c] + y;
      forall j: nat | j < |x|
        ensures !OccursAt(x + [c] + y, [c], j)
      {
        assert (x + [c] + y)[j] == x[j];
      }
      SplitCons(x, [c], y);
      SplitJoinSingle(toks[1..], c);
      assert toks == [x] + toks[1..];
    }
  }

  /** For a one-character delimiter, a trailing delimiter adds one empty token. */
  lemma SplitTrailingDelimiter(x: string, c: char)
    ensures Split(x + [c], [c]) == Split(x, [c]) + [[]]
  {
    var toks := Split(x, [c]);
    JoinSplit(x, [c]);
    SplitTokensFree(x, [c]);
    forall k | 0 <= k < |toks + [[]]|
      ensures c !in (toks + [[]])[k]
    {
      if k < |toks| {
        ContainsSingle(toks[k], c);
      }
    }
    JoinAppend(toks, [], [c]);
    assert x + [c] + [] == x + [c];
    SplitJoinSingle(toks + [[]], c);
  }

  // ---------------------------------------------------------------------------
  // Utils::parse_type
  // ---------------------------------------------------------------------------

  const Comma: string := ","

  /** The kind a token names: exact, case-sensitive match, nothing trimmed. */
  function TokenToXVA(token: string): Option<XVA>
  {
    if token == "CVA" then Some(CVA)
    else if token == "DVA" then Some(DVA)
    else if token == "FVA" then Some(FVA)
    else if token == "MVA" then Some(MVA)
    else if token == "KVA" then Some(KVA)
    else None
  }

  /** A token is recognised as a kind exactly when it is that kind's name. */
  lemma TokenToXVANames(token: string)
    ensures forall x :: TokenToXVA(token) == Some(x) <==> token == Name(x)
  {
  }

  /** The exception `parse_type` throws; it carries the offending token. */
  datatype ParseError = UnknownXVAType(token: string)
  {
    function Message(): string
    {
      "Unknown XVA type: " + token
    }
  }

  /** What the caller observes after `parse_type`: its set, and the exception if one was thrown. */
  datatype ParseOutcome = ParseOutcome(kinds: set<XVA>, error: Option<ParseError>)

  /** The number of leading tokens that name a kind. */
  function ValidPrefix(toks: seq<string>): (k: nat)
    ensures k <= |toks|
    ensures forall j :: 0 <= j < k ==> TokenToXVA(toks[j]).Some?
    ensures k < |toks| ==> TokenToXVA(toks[k]).None?
  {
    if |toks| == 0 || TokenToXVA(toks[0]).None? then 0
    else 1 + ValidPrefix(toks[1..])
  }

  /**
   * The set a run of `xvas.insert(...)` over `toks` adds, in token order;
   * tokens that name no kind add nothing.
   */
  function KindsOf(toks: seq<string>): set<XVA>
  {
    if |toks| == 0 then {}
    else
      var last := toks[|toks| - 1];
      KindsOf(toks[..|toks| - 1]) + (match TokenToXVA(last) case Some(x) => {x} case None => {})
  }

  /** The inserted kinds are exactly those some token names: order and repetition do not matter. */
  lemma {:induction false} KindsOfMembership(toks: seq<string>)
    ensures forall x :: x in KindsOf(toks) <==> Name(x) in toks
  {
    if |toks| > 0 {
      var init, last := toks[..|toks| - 1], toks[|toks| - 1];
      KindsOfMembership(init);
      assert toks == init + [last];
      forall x
        ensures Name(x) in toks <==> Name(x) in init || Name(x) == last
      {
      }
    }
  }

  /** `k` is the index of the first token that names no kind. */
  predicate FirstUnknown(toks: seq<string>, k: int)
  {
    0 <= k < |toks| && TokenToXVA(toks[k]).None?
    && forall j :: 0 <= j < k ==> TokenToXVA(toks[j]).Some?
  }

  /**
   * What `parse_type` does with the token list: the set only grows; it
   * succeeds exactly when every token names a kind, and then adds all the
   * named kinds; otherwise it stops at the first unknown token, reports it,
   * and keeps what the tokens before it added.
   */
  function ParseTokens(toks: seq<string>, xvas: set<XVA>): (r: ParseOutcome)
    ensures xvas <= r.kinds
    ensures r.error.None? <==> forall i :: 0 <= i < |toks| ==> TokenToXVA(toks[i]).Some?
    ensures r.error.None? ==> forall x :: x in r.kinds <==> x in xvas || Name(x) in toks
    ensures r.error.Some? ==>
      (exists k :: FirstUnknown(toks, k)
         && r.error.value == UnknownXVAType(toks[k])
         && forall x :: x in r.kinds <==> x in xvas || Name(x) in toks[..k])
  {
    var k := ValidPrefix(toks);
    assert k == |toks| ==> toks[..k] == toks;
    KindsOfMembership(toks[..k]);
    ParseOutcome(xvas + KindsOf(toks[..k]),
                 if k < |toks| then Some(UnknownXVAType(toks[k])) else None)
  }

  /** `parse_type(str, xvas)` on the comma-separated tokens of `str`. */
  function Parse(str: string, xvas: set<XVA>): ParseOutcome
  {
    ParseTokens(Split(str, Comma), xvas)
  }

  lemma ParseTokensStopsAt(toks: seq<string>, xvas: set<XVA>, k: nat)
    requires FirstUnknown(toks, k)
    ensures ParseTokens(toks, xvas) == ParseOutcome(xvas + KindsOf(toks[..k]), Some(UnknownXVAType(toks[k])))
  {
  }

  lemma ParseTokensAccepts(toks: seq<string>, xvas: set<XVA>)
    requires forall j :: 0 <= j < |toks| ==> TokenToXVA(toks[j]).Some?
    ensures ParseTokens(toks, xvas) == ParseOutcome(xvas + KindsOf(toks), None)
  {
    assert ValidPrefix(toks) == |toks|;
    assert toks[..|toks|] == toks;
  }

  /**
   * `parse_type`: inserts the kind of each token in turn and throws on the
   * first token that names none, without undoing the insertions before it.
   */
  method ParseType(str: string, xvas: set<XVA>) returns (result: set<XVA>, error: Option<ParseError>)
    ensures ParseOutcome(result, error) == Parse(str, xvas)
  {
    var tokens := SplitString(str, Comma, []);
    assert tokens == Split(str, Comma);
    result := xvas;
    var i := 0;
    while i < |tokens|
      invariant i <= |tokens|
      invariant forall j :: 0 <= j < i ==> TokenToXVA(tokens[j]).Some?
      invariant result == xvas + KindsOf(tokens[..i])
    {
      var token := tokens[i];
      match TokenToXVA(token) {
        case Some(x) =>
          assert tokens[..i + 1][..i] == tokens[..i];
          result := result + {x};
        case None =>
          ParseTokensStopsAt(tokens, xvas, i);
          error := Some(UnknownXVAType(token));
          return;
      }
      i := i + 1;
    }
    ParseTokensAccepts(tokens, xvas);
    assert tokens[..i] == tokens;
    error := None;
  }

  // ---------------------------------------------------------------------------
  // Properties of Parse
  // ---------------------------------------------------------------------------

  /** An empty argument is one empty token, which is rejected. */
  lemma ParseEmpty(xvas: set<XVA>)
    ensures Parse([], xvas) == ParseOutcome(xvas, Some(UnknownXVAType([])))
  {
  }

  /** A trailing comma makes an otherwise valid list fail on the empty last token. */
  lemma ParseTrailingComma(str: string, xvas: set<XVA>)
    requires Parse(str, xvas).error.None?
    ensures Parse(str + Comma, xvas) == ParseOutcome(Parse(str, xvas).kinds, Some(UnknownXVAType([])))
  {
    var toks := Split(str, Comma);
    SplitTrailingDelimiter(str, ',');
    var toks' := toks + [[]];
    assert Split(str + Comma, Comma) == toks';
    var k := ValidPrefix(toks');
    assert forall i :: 0 <= i < |toks| ==> toks'[i] == toks[i];
    assert TokenToXVA(toks'[|toks|]).None?;
    assert k == |toks|;
    assert toks'[..k] == toks;
  }

  /** Reordering the valid tokens does not change the resulting set. */
  lemma ParseOrderIndependent(s1: string, s2: string, xvas: set<XVA>)
    requires multiset(Split(s1, Comma)) == multiset(Split(s2, Comma))
    requires Parse(s1, xvas).error.None?
    ensures Parse(s2, xvas) == Parse(s1, xvas)
  {
    var t1, t2 := Split(s1, Comma), Split(s2, Comma);
    forall i | 0 <= i < |t2|
      ensures TokenToXVA(t2[i]).Some?
    {
      assert t2[i] in multiset(t1);
    }
    ParseTokensAccepts(t1, xvas);
    ParseTokensAccepts(t2, xvas);
    KindsOfMembership(t1);
    KindsOfMembership(t2);
    forall x
      ensures x in KindsOf(t1) <==> x in KindsOf(t2)
    {
      assert Name(x) in t1 <==> Name(x) in multiset(t1);
      assert Name(x) in t2 <==> Name(x) in multiset(t2);
    }
    assert KindsOf(t1) == KindsOf(t2);
  }

  /**
   * Round trip: the names of one or more kinds, joined with commas, parse
   * back to exactly those kinds added to the set.
   */
  lemma ParseJoinedNames(ks: seq<XVA>, xvas: set<XVA>)
    requires |ks| >= 1
    ensures Parse(Join(Names(ks), Comma), xvas) == ParseOutcome(xvas + (set x | x in ks), None)
  {
    var names := Names(ks);
    NamesAreTokens(ks);
    SplitJoinSingle(names, ',');
    assert Split(Join(names, Comma), Comma) == names;
    ParseTokensAccepts(names, xvas);
    KindsOfNames(ks);
  }

  lemma NamesAreTokens(ks: seq<XVA>)
    ensures forall k :: 0 <= k < |ks| ==> ',' !in Names(ks)[k] && TokenToXVA(Names(ks)[k]) == Some(ks[k])
  {
  }

  lemma KindsOfNames(ks: seq<XVA>)
    ensures KindsOf(Names(ks)) == set x | x in ks
  {
    var names := Names(ks);
    KindsOfMembership(names);
    forall x
      ensures x in KindsOf(names) <==> x in ks
    {
      if Name(x) in names {
        var i :| 0 <= i < |names| && names[i] == Name(x);
        TokenToXVANames(names[i]);
      }
      if x in ks {
        var i :| 0 <= i < |ks| && ks[i] == x;
        assert names[i] == Name(x);
      }
    }
  }

}
