/**
 * Request routing: the `switch` that picks a handler from the method and
 * the path, and the route parameter taken as field 2 of
 * `strings.Split(path, "/")`.
 */
module Routing {
  import opened ByteStrings

  datatype Route = Echo | FileGet | FilePost | UserAgent | Root | NotFound

  /**
   * The dispatch as the `switch` writes it: cases are tried top to bottom
   * and the first true one wins.
   */
  function Dispatch(httpMethod: Bytes, path: Bytes): Route
  {
    if HasPrefix(path, "/echo") then Echo
    else if httpMethod == "GET" && HasPrefix(path, "/files/") then FileGet
    else if httpMethod == "POST" && HasPrefix(path, "/files/") then FilePost
    else if path == "/user-agent" then UserAgent
    else if path == "/" then Root
    else NotFound
  }

  // ---------------------------------------------------------------------
  // A table-driven router: the reference the `switch` is checked against.

  datatype Pattern = Prefix(prefix: Bytes) | Exact(path: Bytes)

  /** One routing rule; `onlyMethod` None matches every method. */
  datatype Rule = Rule(onlyMethod: Option<Bytes>, pattern: Pattern, route: Route)

  predicate Matches(rule: Rule, httpMethod: Bytes, path: Bytes)
  {
    (rule.onlyMethod.None? || rule.onlyMethod.value == httpMethod) &&
    match rule.pattern
    case Prefix(p) => HasPrefix(path, p)
    case Exact(p) => path == p
  }

  /** The server's rules, in the order the cases are written. */
  const Table: seq<Rule> := [
    Rule(None, Prefix("/echo"), Echo),
    Rule(Some("GET"), Prefix("/files/"), FileGet),
    Rule(Some("POST"), Prefix("/files/"), FilePost),
    Rule(None, Exact("/user-agent"), UserAgent),
    Rule(None, Exact("/"), Root)
  ]

  /**
   * First-match lookup in a rule list: the route of the earliest rule that
   * matches, or NotFound when none does.
   */
  function FirstMatch(rules: seq<Rule>, httpMethod: Bytes, path: Bytes): (r: Route)
    ensures (forall i :: 0 <= i < |rules| ==> !Matches(rules[i], httpMethod, path)) ==> r == NotFound
    ensures forall i :: (0 <= i < |rules| && Matches(rules[i], httpMethod, path) &&
                         (forall j :: 0 <= j < i ==> !Matches(rules[j], httpMethod, path))) ==> r == rules[i].route
  {
    if |rules| == 0 then NotFound
    else if Matches(rules[0], httpMethod, path) then rules[0].route
    else
      var r := FirstMatch(rules[1..], httpMethod, path);
      assert forall i :: 1 <= i < |rules| ==> rules[i] == rules[1..][i - 1];
      r
  }

  /** The `switch` is exactly first-match over the rule table. */
  lemma DispatchIsFirstMatch(httpMethod: Bytes, path: Bytes)
    ensures Dispatch(httpMethod, path) == FirstMatch(Table, httpMethod, path)
  {
    var t := Table;
    if !Matches(t[0], httpMethod, path) && !Matches(t[1], httpMethod, path) && !Matches(t[2], httpMethod, path)
       && !Matches(t[3], httpMethod, path) && !Matches(t[4], httpMethod, path) {
      assert forall i :: 0 <= i < |t| ==> !Matches(t[i], httpMethod, path);
    }
  }

  /**
   * Consequences of the order: "/echo" is a bare prefix, so "/echoes/x"
   * is an echo for every method; the user-agent and root routes ignore the
   * method; a file path with any other method is not found.
   */
  lemma DispatchOrder(httpMethod: Bytes)
    ensures Dispatch(httpMethod, "/echoes/x") == Echo
    ensures Dispatch(httpMethod, "/echo/files/") == Echo
    ensures Dispatch(httpMethod, "/user-agent") == UserAgent
    ensures Dispatch(httpMethod, "/") == Root
    ensures httpMethod != "GET" && httpMethod != "POST" ==> Dispatch(httpMethod, "/files/a") == NotFound
    ensures Dispatch("GET", "/files/a") == FileGet && Dispatch("POST", "/files/a") == FilePost
    ensures Dispatch(httpMethod, "/files") == NotFound && Dispatch(httpMethod, "/user-agent/") == NotFound
  {
    var ua: Bytes := "/user-agent";
    assert ua[1] == 'u';
    assert !HasPrefix(ua, "/echo") && !HasPrefix(ua, "/files/");
    var files: Bytes := "/files";
    assert files[1] == 'f';
    var uaSlash: Bytes := "/user-agent/";
    assert uaSlash[1] == 'u';
  }

  // ---------------------------------------------------------------------
  // Path fields: Go's `strings.Split(path, "/")`.

  const Slash: Byte := '/'

  /** The fields of `s` between the '/' bytes; one more field than slashes. */
  function Fields(s: Bytes): (r: seq<Bytes>)
    ensures |r| == Count(s, '/') + 1
    ensures forall i :: 0 <= i < |r| ==> '/' !in r[i]
    decreases |s|
  {
    match SplitAtFirst(s, Slash)
    case None =>
      CountAbsent(s, Slash);
      [s]
    case Some((a, b)) =>
      CountAppend(a, [Slash] + b, Slash);
      CountAppend([Slash], b, Slash);
      CountAbsent(a, Slash);
      assert a + [Slash] + b == a + ([Slash] + b);
      [a] + Fields(b)
  }

  /** Go's `strings.Join(fields, "/")`, the inverse of `Fields`. */
  function Join(fields: seq<Bytes>): Bytes
    requires |fields| > 0
  {
    if |fields| == 1 then fields[0] else fields[0] + "/" + Join(fields[1..])
  }

  lemma {:induction false} JoinFields(s: Bytes)
    ensures Join(Fields(s)) == s
    decreases |s|
  {
    match SplitAtFirst(s, '/')
    case None =>
    case Some((a, b)) =>
      JoinFields(b);
      assert Fields(s)[1..] == Fields(b);
  }

  lemma {:induction false} FieldsJoin(fields: seq<Bytes>)
    requires |fields| > 0
    requires forall i :: 0 <= i < |fields| ==> '/' !in fields[i]
    ensures Fields(Join(fields)) == fields
  {
    if |fields| > 1 {
      FieldsJoin(fields[1..]);
      SplitAtFirstOf(fields[0], '/', Join(fields[1..]));
    }
  }

  /**
   * The route parameter, field 2 of `strings.Split(path, "/")`: the segment
   * after the second slash. None where Go's index is out of range (fewer
   * than two slashes), which panics in the source.
   */
  function RouteParam(path: Bytes): (r: Option<Bytes>)
    ensures r.None? <==> Count(path, '/') < 2
    ensures r.Some? ==> '/' !in r.value
  {
    var fields := Fields(path);
    if |fields| < 3 then None else Some(fields[2])
  }

  /**
   * The parameter is the segment after the second slash, whatever follows:
   * "/echo/abc/def" yields "abc" and the later segments are dropped.
   */
  lemma ParamIsThirdField(first: Bytes, seg: Bytes, tail: Bytes)
    requires '/' !in first && '/' !in seg
    requires tail == [] || tail[0] == '/'
    ensures RouteParam("/" + first + "/" + seg + tail) == Some(seg)
  {
    Regroup(first, seg, tail);
    FieldsLeadingSlash(first + "/" + (seg + tail));
    FieldsCons(first, seg + tail);
    if tail == [] {
      assert seg + tail == seg;
      FieldsCons(seg, []);
    } else {
      FieldsCons(seg, tail[1..]);
    }
  }

  lemma Regroup(a: Bytes, b: Bytes, c: Bytes)
    ensures "/" + a + "/" + b + c == "/" + (a + "/" + (b + c))
    ensures c != [] && c[0] == '/' ==> b + c == b + "/" + c[1..]
  {
    if c != [] && c[0] == '/' {
      assert c == "/" + c[1..];
    }
  }

  lemma FieldsLeadingSlash(b: Bytes)
    ensures Fields("/" + b) == [[]] + Fields(b)
  {
    SplitAtFirstOf([], '/', b);
    assert [] + ['/' as Byte] + b == "/" + b;
  }

  /** A slash-free piece followed by a slash is the leading field. */
  lemma FieldsCons(a: Bytes, b: Bytes)
    requires '/' !in a
    ensures Fields(a + "/" + b) == [a] + Fields(b)
    ensures Fields(a) == [a]
  {
    SplitAtFirstOf(a, '/', b);
  }

  /** "/echo/abc/def" yields "abc": the segment after it is dropped. */
  lemma EchoParamExample()
    ensures RouteParam("/echo/abc/def") == Some("abc")
  {
    var echo: Bytes, abc: Bytes, def: Bytes := "echo", "abc", "/def";
    ParamIsThirdField(echo, abc, def);
    assert "/" + echo + "/" + abc + def == "/echo/abc/def";
  }

  /** "/echo/" yields the empty segment. */
  lemma EchoEmptyParam()
    ensures RouteParam("/echo/") == Some("")
  {
    var echo: Bytes := "echo";
    ParamIsThirdField(echo, [], []);
    assert "/" + echo + "/" + [] + [] == "/echo/";
  }

  /** "/echo" and "/echoes" have no field 2: Go's index panics. */
  lemma EchoWithoutParam()
    ensures RouteParam("/echo") == None && RouteParam("/echoes") == None
  {
    OneSlash("/echo");
    OneSlash("/echoes");
  }

  /** A path that starts with one slash and has no other has one slash. */
  lemma OneSlash(p: Bytes)
    requires |p| > 0 && p[0] == '/' && '/' !in p[1..]
    ensures Count(p, '/') == 1
  {
    CountAbsent(p[1..], '/');
  }

  /** Every "/files/" path has a parameter: the file routes never hit the out-of-range panic. */
  lemma FilePathsHaveParam(path: Bytes)
    requires HasPrefix(path, "/files/")
    ensures RouteParam(path).Some?
  {
    var pre: Bytes := "/files/";
    assert path == pre + path[|pre|..];
    CountAppend(pre, path[|pre|..], '/');
    CountAppend("/", "files/", '/');
    CountAppend("files", "/", '/');
    CountAbsent("files", '/');
  }

  /**
   * The file a file route reads or writes: the directory, a slash and the
   * parameter, joined with no decoding and no check for "..".
   */
  function FilePath(dir: Bytes, name: Bytes): (p: Bytes)
    ensures HasPrefix(p, dir + "/") && p[|dir| + 1..] == name
  {
    dir + "/" + name
  }
}
