/**
 * The HTTP API front door: routing an action to a registered endpoint, the
 * authentication decision for endpoints that require a license key, the
 * error envelopes, the recursive preparation of response data for JSON and
 * the header sanitising that collapses whitespace runs.
 *
 * The request (action, credentials), the key and activation lookups and the
 * endpoint's own `serve` are inputs; emitting headers and the body is
 * modelled as the list of header lines and the value that would be sent.
 */
module ApiDispatch {
  import opened Common

  // ---------------------------------------------------------------- values

  /** A PHP array key. */
  datatype ArrayKey = IntKey(n: int) | StrKey(s: string)

  /** A PHP value as `prepare_response` sees it; `VOther` is any other type (a resource). */
  datatype Value =
    | VBool(b: bool)
    | VInt(i: int)
    | VDouble(d: real)
    | VString(s: string)
    | VNull
    | VArray(entries: seq<Entry>)
    | VObject(obj: Obj)
    | VOther

  datatype Entry = Entry(key: ArrayKey, value: Value)

  /** An object either implements the API's Serializable contract or exposes its public properties. */
  datatype Obj = Serializable(apiData: Value) | Plain(vars: seq<Entry>)

  predicate IsScalar(v: Value) {
    v.VBool? || v.VInt? || v.VDouble? || v.VString? || v.VNull?
  }

  /** A value that `json_encode` can take as is: scalars, null and arrays of such values. */
  predicate IsWire(v: Value)
    decreases v
  {
    match v
    case VArray(es) => forall i :: 0 <= i < |es| ==> IsWire(es[i].value)
    case VObject(_) => false
    case VOther => false
    case _ => true
  }

  function Keys(es: seq<Entry>): (ks: seq<ArrayKey>)
    ensures |ks| == |es|
    ensures forall i :: 0 <= i < |es| ==> ks[i] == es[i].key
  {
    seq(|es|, i requires 0 <= i < |es| => es[i].key)
  }

  /**
   * `prepare_response`: scalars and null pass through, arrays are mapped
   * element by element keeping their keys, a Serializable object is replaced
   * by its API data and any other object by its properties, both prepared in
   * turn, and anything else becomes null. The result is always ready for JSON.
   */
  function Prepare(v: Value): (r: Value)
    ensures IsWire(r)
    ensures IsScalar(v) ==> r == v
    ensures v.VOther? ==> r == VNull
    ensures v.VArray? ==> r.VArray? && Keys(r.entries) == Keys(v.entries)
    ensures v.VObject? && v.obj.Plain? ==> r.VArray? && Keys(r.entries) == Keys(v.obj.vars)
    ensures v.VObject? && v.obj.Serializable? ==> r == Prepare(v.obj.apiData)
    decreases v
  {
    match v
    case VArray(es) => VArray(PrepareEntries(es))
    case VObject(Serializable(d)) => Prepare(d)
    case VObject(Plain(vars)) => VArray(PrepareEntries(vars))
    case VOther => VNull
    case _ => v
  }

  function PrepareEntries(es: seq<Entry>): (r: seq<Entry>)
    ensures |r| == |es|
    ensures forall i :: 0 <= i < |es| ==> r[i].key == es[i].key && IsWire(r[i].value)
    decreases es
  {
    if es == [] then [] else [PrepareEntry(es[0])] + PrepareEntries(es[1..])
  }

  function PrepareEntry(e: Entry): (r: Entry)
    ensures r.key == e.key && IsWire(r.value)
    decreases e
  {
    Entry(e.key, Prepare(e.value))
  }

  /** Values already ready for JSON are left exactly as they are. */
  lemma {:induction false} PrepareKeepsWire(v: Value)
    requires IsWire(v)
    ensures Prepare(v) == v
    decreases v
  {
    match v
    case VArray(es) => PrepareEntriesKeepWire(es);
    case _ =>
  }

  lemma {:induction false} PrepareEntriesKeepWire(es: seq<Entry>)
    requires forall i :: 0 <= i < |es| ==> IsWire(es[i].value)
    ensures PrepareEntries(es) == es
    decreases es
  {
    if es != [] {
      PrepareEntryKeepsWire(es[0]);
      PrepareEntriesKeepWire(es[1..]);
    }
  }

  lemma {:induction false} PrepareEntryKeepsWire(e: Entry)
    requires IsWire(e.value)
    ensures PrepareEntry(e) == e
    decreases e
  {
    PrepareKeepsWire(e.value);
  }

  /** Preparing twice is preparing once. */
  lemma PrepareIdempotent(v: Value)
    ensures Prepare(Prepare(v)) == Prepare(v)
  {
    PrepareKeepsWire(Prepare(v));
  }

  /** Element `i` of a prepared array is the prepared element `i`. */
  lemma {:induction false} PrepareEntriesAt(es: seq<Entry>, i: nat)
    requires i < |es|
    ensures PrepareEntries(es)[i] == PrepareEntry(es[i])
    decreases i
  {
    if i > 0 {
      PrepareEntriesAt(es[1..], i - 1);
    }
  }

  /** Look a string key up in an array value. */
  function Get(v: Value, k: string): (r: Option<Value>)
    ensures r.Some? ==> v.VArray? && exists i :: 0 <= i < |v.entries| && v.entries[i] == Entry(StrKey(k), r.value)
  {
    if v.VArray? then Find(v.entries, StrKey(k)) else None
  }

  function Find(es: seq<Entry>, k: ArrayKey): (r: Option<Value>)
    ensures r.Some? ==> exists i :: 0 <= i < |es| && es[i] == Entry(k, r.value)
    ensures r.None? ==> forall i :: 0 <= i < |es| ==> es[i].key != k
  {
    if es == [] then None
    else if es[0].key == k then Some(es[0].value)
    else
      var r := Find(es[1..], k);
      assert r.Some? ==> exists i :: 0 <= i < |es[1..]| && es[1..][i] == Entry(k, r.value);
      assert r.Some? ==> exists i :: 0 <= i < |es| && es[i] == Entry(k, r.value) by {
        if r.Some? {
          var i :| 0 <= i < |es[1..]| && es[1..][i] == Entry(k, r.value);
          assert es[i + 1] == Entry(k, r.value);
        }
      }
      r
  }

  // --------------------------------------------------------------- responses

  /** A response: its data, its HTTP status and its headers in the order they were added. */
  datatype Response = Response(data: Value, status: int, headers: seq<(string, string)>)

  /** The status a response gets when none is given. */
  const DefaultStatus := 200

  /** `array('success' => false, 'error' => array('code' => ..., 'message' => ...))`. */
  function ErrorEnvelope(code: int, message: string): (v: Value)
    ensures IsWire(v)
    ensures Get(v, "success") == Some(VBool(false))
    ensures Get(v, "error").Some? && Get(Get(v, "error").value, "code") == Some(VInt(code))
    ensures Get(Get(v, "error").value, "message") == Some(VString(message))
  {
    var err := VArray([Entry(StrKey("code"), VInt(code)), Entry(StrKey("message"), VString(message))]);
    assert Find(err.entries, StrKey("code")) == Some(VInt(code));
    assert Find(err.entries, StrKey("message")) == Some(VString(message));
    var v := VArray([Entry(StrKey("success"), VBool(false)), Entry(StrKey("error"), err)]);
    assert Find(v.entries, StrKey("error")) == Some(err);
    v
  }

  /** True when `r` is an error response with this code and message. */
  predicate IsErrorResponse(r: Response, code: int, message: string) {
    Get(r.data, "success") == Some(VBool(false)) &&
    Get(r.data, "error").Some? &&
    Get(Get(r.data, "error").value, "code") == Some(VInt(code)) &&
    Get(Get(r.data, "error").value, "message") == Some(VString(message))
  }

  const NotFoundMessage := "API Action Not Found"

  function NotFoundResponse(): (r: Response)
    ensures r.status == 404 && IsErrorResponse(r, 404, NotFoundMessage)
  {
    Response(ErrorEnvelope(404, NotFoundMessage), 404, [])
  }

  /** An exception: the API's own exception class or any other. */
  datatype Thrown = Thrown(isApiException: bool, code: int, message: string)

  /**
   * `generate_response_from_exception`: the API's exceptions pass their code
   * and message through; any other exception becomes code 0 with a message
   * naming the original message and code.
   */
  function ResponseFromException(e: Thrown): (r: Response)
    ensures r.status == DefaultStatus && r.headers == []
    ensures e.isApiException ==> IsErrorResponse(r, e.code, e.message)
    ensures !e.isApiException ==>
              IsErrorResponse(r, 0, "Unknown error " + e.message + " with code " + IntToString(e.code))
  {
    if e.isApiException then Response(ErrorEnvelope(e.code, e.message), DefaultStatus, [])
    else Response(ErrorEnvelope(0, "Unknown error " + e.message + " with code " + IntToString(e.code)), DefaultStatus, [])
  }

  // ---------------------------------------------------------------- headers

  /** PCRE `\s`: tab, newline, vertical tab, form feed, carriage return and space. */
  predicate IsSpace(c: char) {
    c == ' ' || '\t' <= c <= '\r'
  }

  /** Every character of `w` is whitespace. */
  predicate AllSpace(w: string) {
    forall i :: 0 <= i < |w| ==> IsSpace(w[i])
  }

  /** The characters of `s` that are not whitespace, in order. */
  function NonSpace(s: string): string {
    if s == [] then [] else (if IsSpace(s[0]) then [] else [s[0]]) + NonSpace(s[1..])
  }

  /**
   * The left-to-right scan behind `preg_replace('/\s+/', ' ', $value)`:
   * `inRun` says whether the character before `s` was whitespace. The first
   * whitespace character of a run becomes one space, the rest of the run is
   * dropped, every other character is kept.
   */
  function CollapseFrom(s: string, inRun: bool): (r: string)
    ensures |r| <= |s|
    decreases |s|
  {
    if s == [] then []
    else if IsSpace(s[0]) then (if inRun then [] else [' ']) + CollapseFrom(s[1..], true)
    else [s[0]] + CollapseFrom(s[1..], false)
  }

  /**
   * `preg_replace('/\s+/', ' ', $value)`: every run of whitespace becomes one
   * space; `CollapseRun` and `CollapseNormal` state what that means.
   */
  function Collapse(s: string): (r: string)
    ensures |r| <= |s|
    ensures |r| == 0 <==> |s| == 0
  {
    CollapseFrom(s, false)
  }

  /** The only whitespace in `r` is the plain space. */
  predicate PlainSpaces(r: string) {
    forall i :: 0 <= i < |r| && IsSpace(r[i]) ==> r[i] == ' '
  }

  /** No two whitespace characters of `r` are adjacent. */
  predicate NoSpacePair(r: string) {
    forall i :: 0 <= i < |r| - 1 ==> !(IsSpace(r[i]) && IsSpace(r[i + 1]))
  }

  lemma PlainSpacesCons(x: char, c: string)
    requires PlainSpaces(c) && (IsSpace(x) ==> x == ' ')
    ensures PlainSpaces([x] + c)
  {
    var r := [x] + c;
    forall i | 0 <= i < |r| && IsSpace(r[i])
      ensures r[i] == ' '
    {
      if i > 0 {
        assert r[i] == c[i - 1];
      }
    }
  }

  lemma NoSpacePairCons(x: char, c: string)
    requires NoSpacePair(c) && (IsSpace(x) ==> c == [] || !IsSpace(c[0]))
    ensures NoSpacePair([x] + c)
  {
    var r := [x] + c;
    forall i | 0 <= i < |r| - 1
      ensures !(IsSpace(r[i]) && IsSpace(r[i + 1]))
    {
      if i > 0 {
        assert r[i] == c[i - 1] && r[i + 1] == c[i];
      }
    }
  }

  /** The only whitespace the scan emits is a plain space. */
  lemma {:induction false} CollapseFromSpaces(s: string, inRun: bool)
    ensures PlainSpaces(CollapseFrom(s, inRun))
    decreases |s|
  {
    if s != [] {
      var r := CollapseFrom(s, inRun);
      var p := IsSpace(s[0]);
      var c := CollapseFrom(s[1..], p);
      CollapseFromSpaces(s[1..], p);
      if p && inRun {
        assert r == c;
      } else {
        var x := if p then ' ' else s[0];
        assert r == [x] + c;
        PlainSpacesCons(x, c);
      }
    }
  }

  /**
   * Inside a run the scan starts with text; outside one it starts with
   * whitespace exactly when the input does.
   */
  lemma {:induction false} CollapseFromHead(s: string, inRun: bool)
    ensures var r := CollapseFrom(s, inRun);
      (inRun ==> r == [] || !IsSpace(r[0])) &&
      (!inRun && s != [] ==> r != [] && (IsSpace(r[0]) <==> IsSpace(s[0])))
    decreases |s|
  {
    if s != [] && IsSpace(s[0]) && inRun {
      CollapseFromHead(s[1..], true);
    }
  }

  /** The scan never emits two whitespace characters in a row. */
  lemma {:induction false} CollapseFromNoPair(s: string, inRun: bool)
    ensures NoSpacePair(CollapseFrom(s, inRun))
    decreases |s|
  {
    if s != [] {
      var r := CollapseFrom(s, inRun);
      var p := IsSpace(s[0]);
      var c := CollapseFrom(s[1..], p);
      CollapseFromNoPair(s[1..], p);
      if p && inRun {
        assert r == c;
      } else {
        var x := if p then ' ' else s[0];
        assert r == [x] + c;
        CollapseFromHead(s[1..], p);
        NoSpacePairCons(x, c);
      }
    }
  }

  /** The scan keeps every character that is not whitespace, in order. */
  lemma {:induction false} CollapseFromNonSpace(s: string, inRun: bool)
    ensures NonSpace(CollapseFrom(s, inRun)) == NonSpace(s)
    decreases |s|
  {
    if s != [] {
      var r := CollapseFrom(s, inRun);
      var c := CollapseFrom(s[1..], IsSpace(s[0]));
      CollapseFromNonSpace(s[1..], IsSpace(s[0]));
      if IsSpace(s[0]) && inRun {
        assert r == c;
      } else {
        assert r == r[..1] + c;
        assert r[1..] == c;
        assert NonSpace(r) == (if IsSpace(r[0]) then [] else [r[0]]) + NonSpace(c);
      }
    }
  }

  /**
   * The result has no whitespace other than single spaces, starts with
   * whitespace exactly when the input does, and keeps every other character
   * in order.
   */
  lemma CollapseNormal(s: string)
    ensures var r := Collapse(s);
      (forall i :: 0 <= i < |r| && IsSpace(r[i]) ==> r[i] == ' ') &&
      (forall i :: 0 <= i < |r| - 1 ==> !(IsSpace(r[i]) && IsSpace(r[i + 1]))) &&
      (|s| > 0 ==> (IsSpace(r[0]) <==> IsSpace(s[0]))) &&
      NonSpace(r) == NonSpace(s)
  {
    CollapseFromSpaces(s, false);
    CollapseFromHead(s, false);
    CollapseFromNoPair(s, false);
    CollapseFromNonSpace(s, false);
  }

  /** A run of whitespace inside a run adds nothing. */
  lemma {:induction false} CollapseFromSkipsRun(w: string, b: string)
    requires AllSpace(w)
    ensures CollapseFrom(w + b, true) == CollapseFrom(b, true)
    decreases |w|
  {
    if w == [] {
      assert w + b == b;
    } else {
      assert (w + b)[1..] == w[1..] + b;
      CollapseFromSkipsRun(w[1..], b);
    }
  }

  /** Text that does not start with whitespace is scanned the same whatever came before. */
  lemma CollapseFromFresh(b: string)
    requires b == [] || !IsSpace(b[0])
    ensures CollapseFrom(b, true) == CollapseFrom(b, false)
  {
  }

  /** What the scan emits for one character `c`. */
  function ScanHead(c: char, inRun: bool): string {
    if IsSpace(c) then (if inRun then [] else [' ']) else [c]
  }

  /** One step of the scan. */
  lemma CollapseFromCons(c: char, t: string, inRun: bool)
    ensures CollapseFrom([c] + t, inRun) == ScanHead(c, inRun) + CollapseFrom(t, IsSpace(c))
  {
    assert ([c] + t)[0] == c && ([c] + t)[1..] == t;
  }

  /** The scan splits after a character that is not whitespace. */
  lemma {:induction false} CollapseFromAppend(a: string, x: string, inRun: bool)
    requires a != [] && !IsSpace(a[|a| - 1])
    ensures CollapseFrom(a + x, inRun) == CollapseFrom(a, inRun) + CollapseFrom(x, false)
    decreases |a|
  {
    var c, t := a[0], a[1..];
    var p := IsSpace(c);
    var h := ScanHead(c, inRun);
    assert a == [c] + t;
    assert a + x == [c] + (t + x);
    CollapseFromCons(c, t + x, inRun);
    CollapseFromCons(c, t, inRun);
    if t == [] {
      assert t + x == x;
      assert !p;
    } else {
      assert t[|t| - 1] == a[|a| - 1];
      CollapseFromAppend(t, x, p);
      ConcatAssoc(h, CollapseFrom(t, p), CollapseFrom(x, false));
    }
  }

  /**
   * Every run of whitespace becomes one space: a non-empty run between text
   * that does not end in whitespace and text that does not start with it
   * collapses to a single space, and each side is collapsed on its own.
   */
  lemma CollapseRun(a: string, w: string, b: string)
    requires a == [] || !IsSpace(a[|a| - 1])
    requires w != [] && AllSpace(w)
    requires b == [] || !IsSpace(b[0])
    ensures Collapse(a + w + b) == Collapse(a) + " " + Collapse(b)
  {
    var t := w + b;
    CollapseRunHead(w, b);
    if a == [] {
      assert a + w + b == t;
    } else {
      assert a + w + b == a + t;
      CollapseFromAppend(a, t, false);
      ConcatAssoc(Collapse(a), " ", Collapse(b));
    }
  }

  /** A run of whitespace at the front becomes one space. */
  lemma CollapseRunHead(w: string, b: string)
    requires w != [] && AllSpace(w)
    requires b == [] || !IsSpace(b[0])
    ensures Collapse(w + b) == " " + Collapse(b)
  {
    var u := w[1..];
    assert w + b == [w[0]] + (u + b);
    CollapseFromCons(w[0], u + b, false);
    CollapseFromSkipsRun(u, b);
    CollapseFromFresh(b);
  }

  /** A tab pair between two letters becomes one space. */
  lemma CollapseExample()
    ensures Collapse("a\t\tb") == "a b"
  {
  }

  /** The scan leaves a value whose only whitespace is single spaces unchanged. */
  lemma {:induction false} CollapseFromFixes(s: string, inRun: bool)
    requires forall i :: 0 <= i < |s| && IsSpace(s[i]) ==> s[i] == ' '
    requires forall i :: 0 <= i < |s| - 1 ==> !(IsSpace(s[i]) && IsSpace(s[i + 1]))
    requires inRun ==> s == [] || !IsSpace(s[0])
    ensures CollapseFrom(s, inRun) == s
    decreases |s|
  {
    if s != [] {
      CollapseFromFixes(s[1..], IsSpace(s[0]));
    }
  }

  /** A value whose only whitespace is single spaces is left unchanged. */
  lemma CollapseFixes(s: string)
    requires forall i :: 0 <= i < |s| && IsSpace(s[i]) ==> s[i] == ' '
    requires forall i :: 0 <= i < |s| - 1 ==> !(IsSpace(s[i]) && IsSpace(s[i + 1]))
    ensures Collapse(s) == s
  {
    CollapseFromFixes(s, false);
  }

  /** Sanitising a header value twice is sanitising it once. */
  lemma CollapseIdempotent(s: string)
    ensures Collapse(Collapse(s)) == Collapse(s)
  {
    CollapseNormal(s);
    CollapseFixes(Collapse(s));
  }

  lemma ConcatAssoc(x: string, y: string, z: string)
    ensures x + (y + z) == x + y + z
  {
  }

  /** `send_header`: the line `name: value` with the value's whitespace collapsed. */
  function HeaderLine(name: string, value: string): (line: string)
    ensures |line| >= |name| + 2
    ensures line[..|name| + 2] == name + ": "
    ensures forall i :: |name| + 2 <= i < |line| - 1 ==> !(IsSpace(line[i]) && IsSpace(line[i + 1]))
    ensures NonSpace(line[|name| + 2..]) == NonSpace(value)
  {
    var v := Collapse(value);
    CollapseNormal(value);
    var line := name + ": " + v;
    assert line[|name| + 2..] == v;
    line
  }

  /** A header value's whitespace runs each become one space in the line sent. */
  lemma HeaderLineRun(name: string, a: string, w: string, b: string)
    requires a == [] || !IsSpace(a[|a| - 1])
    requires w != [] && AllSpace(w)
    requires b == [] || !IsSpace(b[0])
    ensures HeaderLine(name, a + w + b) == name + ": " + Collapse(a) + " " + Collapse(b)
  {
    CollapseRun(a, w, b);
    ConcatAssoc(name + ": ", Collapse(a) + " ", Collapse(b));
    ConcatAssoc(name + ": ", Collapse(a), " ");
  }

  /** `send_headers`: one header line per header, in order. */
  method SendHeaders(headers: seq<(string, string)>) returns (lines: seq<string>)
    ensures |lines| == |headers|
    ensures forall i :: 0 <= i < |headers| ==> lines[i] == HeaderLine(headers[i].0, headers[i].1)
  {
    lines := [];
    var i := 0;
    while i < |headers|
      invariant 0 <= i <= |headers|
      invariant |lines| == i
      invariant forall j :: 0 <= j < i ==> lines[j] == HeaderLine(headers[j].0, headers[j].1)
    {
      lines := lines + [HeaderLine(headers[i].0, headers[i].1)];
      i := i + 1;
    }
  }

  /** What leaves the server: the header lines, the status and the data handed to the JSON encoder. */
  datatype Sent = Sent(headerLines: seq<string>, status: int, body: Value)

  /** The header lines of a response: the JSON content type, then one line per header of its own, in order. */
  predicate SentHeaders(lines: seq<string>, headers: seq<(string, string)>, charset: string) {
    |lines| == 1 + |headers| &&
    lines[0] == HeaderLine("Content-Type", "application/json; charset=" + charset) &&
    forall i :: 0 <= i < |headers| ==> lines[i + 1] == HeaderLine(headers[i].0, headers[i].1)
  }

  /** `send_response`: the JSON content type first, then the response's own headers, its status and its prepared data. */
  method SendResponse(r: Response, charset: string) returns (out: Sent)
    ensures SentHeaders(out.headerLines, r.headers, charset)
    ensures out.status == r.status
    ensures out.body == Prepare(r.data) && IsWire(out.body)
  {
    var lines := SendHeaders(r.headers);
    out := Sent([HeaderLine("Content-Type", "application/json; charset=" + charset)] + lines, r.status, Prepare(r.data));
  }

  // ----------------------------------------------------------- authentication

  /** The authentication modes an endpoint can ask for; `OtherMode` is any other value. */
  datatype AuthMode = Exists | ActiveKey | ValidActivation | OtherMode(code: int)

  /** The license key status that `MODE_ACTIVE` requires. */
  const KeyActive := "active"

  /** The activation status that `MODE_VALID_ACTIVATION` requires. */
  const ActivationActive := "active"

  /** A license key as authentication sees it. */
  datatype AuthKey = AuthKey(key: string, status: string)

  /** An activation record: its status and the key string of the key it belongs to. */
  datatype AuthActivation = AuthActivation(status: string, keyString: string)

  /** What `itelic_get_key` did: returned a key, returned false, or threw. */
  datatype KeyLookup = FoundKey(k: AuthKey) | NoKey | LookupThrew

  /** The basic-auth user and password, each absent when not sent. */
  datatype Credentials = Credentials(user: Option<string>, password: Option<string>)

  /** The services authentication calls: text sanitising, key lookup and activation lookup. */
  datatype Services = Services(sanitize: string -> string, getKey: string -> KeyLookup, getActivation: string -> Option<AuthActivation>)

  /** A user that is absent or trims to nothing. */
  predicate BlankUser(c: Credentials) {
    c.user.None? || Trim(c.user.value) == ""
  }

  /** The username is blank exactly when it is absent or made only of characters that `trim` strips. */
  lemma BlankUserMeans(c: Credentials)
    ensures BlankUser(c) <==> c.user.None? || forall i :: 0 <= i < |c.user.value| ==> IsTrimChar(c.user.value[i])
  {
  }

  /** The activation is looked up only when a password that PHP does not consider empty was sent. */
  function ActivationFor(c: Credentials, svc: Services): (r: Option<AuthActivation>)
    ensures (c.password.None? || PhpEmpty(c.password.value)) ==> r.None?
    ensures c.password.Some? && !PhpEmpty(c.password.value) ==> r == svc.getActivation(c.password.value)
  {
    if c.password.Some? && !PhpEmpty(c.password.value) then svc.getActivation(c.password.value) else None
  }

  /** The mode switch, once a key has been found. */
  function ModeDecision(mode: AuthMode, k: AuthKey, act: Option<AuthActivation>): (ok: bool)
    ensures mode == Exists ==> ok
    ensures mode == ActiveKey ==> (ok <==> k.status == KeyActive)
    ensures mode == ValidActivation ==>
              (ok <==> act.Some? && act.value.status == ActivationActive && act.value.keyString == k.key)
    ensures mode.OtherMode? ==> !ok
  {
    match mode
    case ActiveKey => k.status == KeyActive
    case Exists => true
    case ValidActivation =>
      if act.None? then false
      else if act.value.status != ActivationActive then false
      else if act.value.keyString != k.key then false
      else true
    case OtherMode(_) => false
  }

  /**
   * `handle_auth`, with a key that is not found refused in every mode. A blank
   * user or a lookup that throws is refused before anything else; otherwise
   * the mode decides.
   */
  function AuthDecision(mode: AuthMode, c: Credentials, svc: Services): (ok: bool)
    ensures BlankUser(c) ==> !ok
    ensures !BlankUser(c) ==> match svc.getKey(svc.sanitize(c.user.value))
            case FoundKey(k) => ok == ModeDecision(mode, k, ActivationFor(c, svc))
            case NoKey => !ok
            case LookupThrew => !ok
  {
    if BlankUser(c) then false
    else
      match svc.getKey(svc.sanitize(c.user.value))
      case LookupThrew => false
      case NoKey => false
      case FoundKey(k) => ModeDecision(mode, k, ActivationFor(c, svc))
  }

  /** EXISTS passes for a found key whatever its status; ACTIVE only for an active one. */
  lemma ExistsVersusActive(c: Credentials, svc: Services, k: AuthKey)
    requires !BlankUser(c) && svc.getKey(svc.sanitize(c.user.value)) == FoundKey(k)
    ensures AuthDecision(Exists, c, svc)
    ensures AuthDecision(ActiveKey, c, svc) <==> k.status == KeyActive
    ensures AuthDecision(ActiveKey, c, svc) ==> AuthDecision(Exists, c, svc)
  {
  }

  /** Without a usable password no request passes VALID_ACTIVATION. */
  lemma NoPasswordNoActivation(c: Credentials, svc: Services)
    requires c.password.None? || PhpEmpty(c.password.value)
    ensures !AuthDecision(ValidActivation, c, svc)
  {
  }

  /** The outcomes of `handle_auth` as written: it can also end in a fatal error. */
  datatype AuthOutcome = Pass | Fail | Fatal

  /**
   * `handle_auth` exactly as written. `itelic_get_key` returns false for an
   * unknown key without throwing, and nothing checks for that: MODE_EXISTS
   * then passes, and the modes that call a method on the key reach a fatal
   * error. This assumes that `set_auth_license_key` (lib/API/Dispatch.php:170)
   * accepts false; its declaration is not part of this model, and were its
   * parameter typed as a key, every mode would instead end in a type error.
   */
  function AuthDecisionAsWritten(mode: AuthMode, c: Credentials, svc: Services): (r: AuthOutcome)
    ensures BlankUser(c) ==> r == Fail
    ensures !BlankUser(c) && svc.getKey(svc.sanitize(c.user.value)).FoundKey? ==>
              (r == Pass <==> AuthDecision(mode, c, svc)) && r != Fatal
  {
    if BlankUser(c) then Fail
    else
      match svc.getKey(svc.sanitize(c.user.value))
      case LookupThrew => Fail
      case FoundKey(k) => if ModeDecision(mode, k, ActivationFor(c, svc)) then Pass else Fail
      case NoKey =>
        match mode
        case Exists => Pass
        case ActiveKey => Fatal
        case ValidActivation =>
          var act := ActivationFor(c, svc);
          if act.None? || act.value.status != ActivationActive then Fail else Fatal
        case OtherMode(_) => Fail
  }

  /** The discrepancy: an unknown key is let through MODE_EXISTS, and MODE_ACTIVE crashes on it. */
  lemma UnknownKeyAsWritten(c: Credentials, svc: Services)
    requires !BlankUser(c) && svc.getKey(svc.sanitize(c.user.value)) == NoKey
    ensures AuthDecisionAsWritten(Exists, c, svc) == Pass
    ensures AuthDecisionAsWritten(ActiveKey, c, svc) == Fatal
    ensures !AuthDecision(Exists, c, svc) && !AuthDecision(ActiveKey, c, svc)
  {
  }

  /** A concrete request that shows it: user "abcd-1234", no such key. */
  lemma UnknownKeyExample()
    ensures var svc := Services(s => s, s => NoKey, s => None);
            var c := Credentials(Some("abcd-1234"), None);
            AuthDecisionAsWritten(Exists, c, svc) == Pass && !AuthDecision(Exists, c, svc)
  {
    var svc := Services(s => s, s => NoKey, s => None);
    var c := Credentials(Some("abcd-1234"), None);
    assert !IsTrimChar(c.user.value[0]);
    assert !BlankUser(c);
  }

  // ---------------------------------------------------------------- dispatch

  /** What an endpoint's `serve` does with this request. */
  datatype ServeOutcome = Returns(response: Response) | Throws(e: Thrown)

  /** A registered endpoint, with the key and activation authentication attaches to it. */
  class Endpoint {
    const authenticatable: bool
    const mode: AuthMode
    const authErrorCode: int
    const authErrorMessage: string
    const serve: ServeOutcome
    var authKey: Option<AuthKey>
    var authActivation: Option<AuthActivation>

    constructor (authenticatable: bool, mode: AuthMode, authErrorCode: int, authErrorMessage: string, serve: ServeOutcome)
      ensures this.authenticatable == authenticatable && this.mode == mode && this.serve == serve
      ensures this.authErrorCode == authErrorCode && this.authErrorMessage == authErrorMessage
      ensures authKey.None? && authActivation.None?
    {
      this.authenticatable := authenticatable;
      this.mode := mode;
      this.authErrorCode := authErrorCode;
      this.authErrorMessage := authErrorMessage;
      this.serve := serve;
      authKey := None;
      authActivation := None;
    }
  }

  const RealmActive := "An active license key is required to access this resource, passed as the username. Leave password blank."
  const RealmExists := "A license key is required to access this resource, passed as the username. Leave password blank."

  /**
   * `generate_auth_missing`: a 401 carrying the endpoint's error code and
   * message and a basic-auth challenge whose realm depends on the mode.
   */
  function AuthMissing(mode: AuthMode, code: int, message: string): (r: Response)
    ensures r.status == 401 && IsErrorResponse(r, code, message)
    ensures |r.headers| == 1 && r.headers[0].0 == "WWW-Authenticate"
    ensures r.headers[0].1 == "Basic realm=\"" + (if mode == ActiveKey then RealmActive else RealmExists) + "\""
  {
    var realm := if mode == ActiveKey then RealmActive else RealmExists;
    Response(ErrorEnvelope(code, message), 401, [("WWW-Authenticate", "Basic realm=\"" + realm + "\"")])
  }

  /** The response of a registered endpoint, given whether authentication passed. */
  function EndpointResponse(authenticatable: bool, mode: AuthMode, code: int, message: string,
                            serve: ServeOutcome, authOk: bool): (r: (Response, bool))
    ensures r.1 <==> !authenticatable || authOk
    ensures !r.1 ==> r.0 == AuthMissing(mode, code, message)
    ensures r.1 && serve.Returns? ==> r.0 == serve.response
    ensures r.1 && serve.Throws? ==> r.0 == ResponseFromException(serve.e)
  {
    if authenticatable && !authOk then (AuthMissing(mode, code, message), false)
    else
      match serve
      case Returns(resp) => (resp, true)
      case Throws(e) => (ResponseFromException(e), true)
  }

  /** What a request came to: no action at all, or a response sent and whether `serve` ran. */
  datatype DispatchResult = NoAction | Dispatched(sent: Sent, served: bool)

  /** The endpoint registry and the request dispatcher. */
  class Dispatcher {
    var endpoints: map<string, Endpoint>

    constructor ()
      ensures endpoints == map[]
    {
      endpoints := map[];
    }

    /** `register_endpoint`: the action now names this endpoint; every other action keeps its own. */
    method RegisterEndpoint(e: Endpoint, action: string)
      modifies this
      ensures endpoints == old(endpoints)[action := e]
    {
      endpoints := endpoints[action := e];
    }

    /**
     * `handle_auth`: refuse a blank user and a key that is not found; attach
     * the key and the activation to the endpoint; let the mode decide.
     */
    method HandleAuth(e: Endpoint, c: Credentials, svc: Services) returns (ok: bool)
      modifies e
      ensures ok == AuthDecision(e.mode, c, svc)
      ensures !BlankUser(c) && svc.getKey(svc.sanitize(c.user.value)).FoundKey? ==>
                e.authKey == Some(svc.getKey(svc.sanitize(c.user.value)).k) && e.authActivation == ActivationFor(c, svc)
      ensures (BlankUser(c) || !svc.getKey(svc.sanitize(c.user.value)).FoundKey?) ==>
                e.authKey == old(e.authKey) && e.authActivation == old(e.authActivation)
    {
      if c.user.None? || Trim(c.user.value) == "" {
        return false;
      }
      var licenseKey := svc.sanitize(c.user.value);
      var lookup := svc.getKey(licenseKey);
      if !lookup.FoundKey? {
        return false;
      }
      var activation := if c.password.Some? && !PhpEmpty(c.password.value) then svc.getActivation(c.password.value) else None;
      e.authKey := Some(lookup.k);
      e.authActivation := activation;
      ok := ModeDecision(e.mode, lookup.k, activation);
    }

    /**
     * `dispatch`: an action PHP considers empty does nothing; an unknown
     * action is answered 404; otherwise authentication runs for endpoints
     * that require it and `serve` runs only when it passed. Only the
     * action's own endpoint can change: a found key and its activation are
     * left attached to it, as `handle_auth` does, and otherwise it keeps
     * what it had.
     */
    method Dispatch(action: string, c: Credentials, svc: Services, charset: string) returns (r: DispatchResult)
      modifies if action in endpoints then {endpoints[action]} else {}
      ensures PhpEmpty(action) ==> r == NoAction
      ensures !PhpEmpty(action) && action !in endpoints ==>
                r.Dispatched? && !r.served && r.sent.status == 404 && r.sent.body == NotFoundResponse().data &&
                SentHeaders(r.sent.headerLines, [], charset)
      ensures !PhpEmpty(action) && action in endpoints ==>
                var e := endpoints[action];
                var resp := EndpointResponse(e.authenticatable, e.mode, e.authErrorCode, e.authErrorMessage, e.serve,
                                             AuthDecision(e.mode, c, svc));
                r.Dispatched? && r.served == resp.1 && r.sent.status == resp.0.status && r.sent.body == Prepare(resp.0.data) &&
                SentHeaders(r.sent.headerLines, resp.0.headers, charset)
      ensures !PhpEmpty(action) && action in endpoints && endpoints[action].authenticatable &&
              !BlankUser(c) && svc.getKey(svc.sanitize(c.user.value)).FoundKey? ==>
                endpoints[action].authKey == Some(svc.getKey(svc.sanitize(c.user.value)).k) &&
                endpoints[action].authActivation == ActivationFor(c, svc)
      ensures action in endpoints &&
              (PhpEmpty(action) || !endpoints[action].authenticatable ||
               BlankUser(c) || !svc.getKey(svc.sanitize(c.user.value)).FoundKey?) ==>
                endpoints[action].authKey == old(endpoints[action].authKey) &&
                endpoints[action].authActivation == old(endpoints[action].authActivation)
    {
      if PhpEmpty(action) {
        return NoAction;
      }
      if action !in endpoints {
        var sent := SendResponse(NotFoundResponse(), charset);
        PrepareKeepsWire(NotFoundResponse().data);
        return Dispatched(sent, false);
      }
      var e := endpoints[action];
      var authOk := true;
      if e.authenticatable {
        authOk := HandleAuth(e, c, svc);
      }
      var response: Response;
      var served := false;
      if e.authenticatable && !authOk {
        response := AuthMissing(e.mode, e.authErrorCode, e.authErrorMessage);
      } else {
        served := true;
        match e.serve
        case Returns(resp) => response := resp;
        case Throws(ex) => response := ResponseFromException(ex);
      }
      var sent := SendResponse(response, charset);
      r := Dispatched(sent, served);
    }
  }

  /** When authentication fails, `serve` does not run and the client gets the 401 challenge. */
  lemma FailedAuthNeverServes(authenticatable: bool, mode: AuthMode, code: int, message: string, serve: ServeOutcome)
    requires authenticatable
    ensures var r := EndpointResponse(authenticatable, mode, code, message, serve, false);
            !r.1 && r.0.status == 401 && IsErrorResponse(r.0, code, message) && r.0.headers[0].0 == "WWW-Authenticate"
  {
  }

  /** The header lines sent after a failed authentication: the content type, then the Basic challenge. */
  lemma ChallengeSent(mode: AuthMode, code: int, message: string, serve: ServeOutcome, charset: string, lines: seq<string>)
    requires SentHeaders(lines, EndpointResponse(true, mode, code, message, serve, false).0.headers, charset)
    ensures |lines| == 2
    ensures lines[0] == HeaderLine("Content-Type", "application/json; charset=" + charset)
    ensures lines[1] == HeaderLine("WWW-Authenticate", "Basic realm=\"" + (if mode == ActiveKey then RealmActive else RealmExists) + "\"")
  {
    assert lines[0 + 1] == lines[1];
  }
}
