/**
How a request is kept in a session row (storage_session_model.go). Lists of scopes and audiences are
joined by a bar, and times are cut to seconds. An empty column reads back as the empty list.
*/
module SessionRow {
  import opened Options

  const BAR := '|'

  /** strings.Join(xs, "|"). */
  function Join(xs: seq<string>): string {
    if xs == [] then "" else if |xs| == 1 then xs[0] else xs[0] + [BAR] + Join(xs[1..])
  }

  /** The text before the first bar. */
  function Head(s: string): (h: string)
    ensures h <= s && BAR !in h && (|h| < |s| ==> s[|h|] == BAR)
  {
    if s == "" || s[0] == BAR then "" else [s[0]] + Head(s[1..])
  }

  /** strings.Split(s, "|"). */
  function Split(s: string): (parts: seq<string>)
    ensures parts != []
    decreases |s|
  {
    var h := Head(s);
    if |h| == |s| then [h] else [h] + Split(s[|h| + 1..])
  }

  function ReadList(column: string): seq<string> { if column == "" then [] else Split(column) }

  predicate IsPlain(xs: seq<string>) { forall i :: 0 <= i < |xs| ==> BAR !in xs[i] }

  lemma {:induction false} HeadStops(x: string, rest: string)
    requires BAR !in x
    ensures Head(x + [BAR] + rest) == x && Head(x) == x
  {
    if x == "" {
      assert x + [BAR] + rest == [BAR] + rest;
    } else {
      assert (x + [BAR] + rest)[1..] == x[1..] + [BAR] + rest;
      HeadStops(x[1..], rest);
    }
  }

  lemma {:induction false} SplitUndoesJoin(xs: seq<string>)
    requires xs != [] && IsPlain(xs)
    ensures Split(Join(xs)) == xs
  {
    if |xs| == 1 {
      HeadStops(xs[0], "");
    } else {
      var rest := Join(xs[1..]);
      HeadStops(xs[0], rest);
      assert Join(xs)[|xs[0]| + 1..] == rest;
      SplitUndoesJoin(xs[1..]);
      assert xs == [xs[0]] + xs[1..];
    }
  }

  lemma {:induction false} PartsArePlain(s: string)
    ensures IsPlain(Split(s))
    decreases |s|
  {
    var h := Head(s);
    if |h| < |s| { PartsArePlain(s[|h| + 1..]); }
  }

  /** Reading and writing back leaves a column as it was. */
  lemma {:induction false} JoinUndoesSplit(s: string)
    ensures Join(Split(s)) == s
    decreases |s|
  {
    var h := Head(s);
    if |h| < |s| {
      var rest := s[|h| + 1..];
      JoinUndoesSplit(rest);
      assert Split(s) == [h] + Split(rest) && Split(s)[1..] == Split(rest);
      JoinUnfolds(h, Split(rest));
      assert s == h + [BAR] + rest;
    }
  }

  lemma {:induction false} JoinUnfolds(x: string, xs: seq<string>)
    requires xs != []
    ensures Join([x] + xs) == x + [BAR] + Join(xs)
  {
    assert ([x] + xs)[1..] == xs;
  }

  /** The column that a list goes to, element by element. */
  lemma ColumnText(a: string, xs: seq<string>)
    ensures Join([]) == "" && Join([a]) == a
    ensures xs != [] ==> Join([a] + xs) == a + "|" + Join(xs)
  {
    if xs != [] { JoinUnfolds(a, xs); }
  }

  /** A list survives the row exactly when no element holds a bar and it is not the list of the empty
      string alone. */
  lemma ListSurvives(xs: seq<string>)
    ensures ReadList(Join(xs)) == xs <==> IsPlain(xs) && xs != [""]
  {
    PartsArePlain(Join(xs));
    if xs != [] && IsPlain(xs) && xs != [""] {
      SplitUndoesJoin(xs);
      assert |xs| > 1 ==> |Join(xs)| >= 1;
    }
  }

  function SplitEach(xs: seq<string>): seq<string> { if xs == [] then [] else Split(xs[0]) + SplitEach(xs[1..]) }

  lemma {:induction false} SplitJoins(x: string, rest: string)
    ensures Split(x + [BAR] + rest) == Split(x) + Split(rest)
    decreases |x|
  {
    var h := Head(x);
    var s := x + [BAR] + rest;
    if |h| == |x| {
      HeadStops(x, rest);
      assert s[|x| + 1..] == rest;
    } else {
      var tail := x[|h| + 1..];
      assert x == h + [BAR] + tail;
      assert s == h + [BAR] + (tail + [BAR] + rest);
      HeadStops(h, tail + [BAR] + rest);
      assert s[|h| + 1..] == tail + [BAR] + rest;
      SplitJoins(tail, rest);
    }
  }

  /** What comes back in general: every element cut at its bars. */
  lemma {:induction false} ListReadsBackSplit(xs: seq<string>)
    requires xs != []
    ensures Split(Join(xs)) == SplitEach(xs)
  {
    if |xs| == 1 {
      assert SplitEach(xs[1..]) == [];
    } else {
      SplitJoins(xs[0], Join(xs[1..]));
      ListReadsBackSplit(xs[1..]);
    }
  }

  /** The scope-token grammar of section 3.3 of RFC 6749. */
  predicate IsScopeToken(s: string) {
    s != "" && forall i :: 0 <= i < |s| ==> s[i] == '!' || '#' <= s[i] <= '[' || ']' <= s[i] <= '~'
  }

  /** The condition is real: any two scopes joined by a bar make a legal scope, and it reads back as the two. */
  lemma LegalScopeFallsApart(a: string, b: string)
    requires IsScopeToken(a) && IsScopeToken(b) && BAR !in a && BAR !in b
    ensures IsScopeToken(a + [BAR] + b) && ReadList(Join([a + [BAR] + b])) == [a, b]
  {
    SplitJoins(a, b);
    HeadStops(a, "");
    HeadStops(b, "");
  }

  const SECOND := 1_000_000_000

  /** The parts of a request that the row keeps in columns of their own; `requestedAt` in nanoseconds. */
  datatype Request = Request(id: string, client: string, requestedAt: int, scopes: seq<string>, grantedScopes: seq<string>,
                             audience: seq<string>, grantedAudience: seq<string>)

  class SessionModel {
    var requestId: string
    var clientId: string
    var requestedAt: int
    var expiresAt: int
    var scopes: string
    var grantedScopes: string
    var audience: string
    var grantedAudience: string

    constructor ()
      ensures expiresAt == 0
    {
      requestId, clientId, requestedAt, expiresAt, scopes, grantedScopes, audience, grantedAudience := "", "", 0, 0, "", "", "", "";
    }

    /** ToRequest, as far as these columns go. */
    function ToRequest(): Request
      reads this
    {
      Request(requestId, clientId, requestedAt * SECOND, ReadList(scopes), ReadList(grantedScopes), ReadList(audience), ReadList(grantedAudience))
    }

    /** SetRequester. Reading the row back gives the request exactly when its time is in whole seconds and
        each of its lists survives; ids, and times to the second, always survive. `expires` is
        the session's expiry in nanoseconds, if there is a session. Each list goes to its own column, joined. */
    method SetRequester(request: Request, expires: Option<int>)
      modifies this
      ensures expiresAt == if expires.Some? then expires.value / 1_000_000_000 else 0
      ensures requestId == request.id && clientId == request.client && requestedAt == request.requestedAt / 1_000_000_000
      ensures scopes == Join(request.scopes) && grantedScopes == Join(request.grantedScopes)
      ensures audience == Join(request.audience) && grantedAudience == Join(request.grantedAudience)
      ensures var r := ToRequest();
              && r.id == request.id && r.client == request.client
              && r.requestedAt <= request.requestedAt < r.requestedAt + 1_000_000_000
              && (r.scopes == request.scopes <==> IsPlain(request.scopes) && request.scopes != [""])
              && (r.grantedScopes == request.grantedScopes <==> IsPlain(request.grantedScopes) && request.grantedScopes != [""])
              && (r.audience == request.audience <==> IsPlain(request.audience) && request.audience != [""])
              && (r.grantedAudience == request.grantedAudience <==> IsPlain(request.grantedAudience) && request.grantedAudience != [""])
    {
      expiresAt := 0;
      if expires.Some? { expiresAt := expires.value / SECOND; }
      clientId, requestId, requestedAt := request.client, request.id, request.requestedAt / SECOND;
      scopes, grantedScopes := Join(request.scopes), Join(request.grantedScopes);
      audience, grantedAudience := Join(request.audience), Join(request.grantedAudience);
      ListSurvives(request.scopes);
      ListSurvives(request.grantedScopes);
      ListSurvives(request.audience);
      ListSurvives(request.grantedAudience);
    }
  }
}
