/**
 * What the application sees of an HTTP exchange made with axios, and the
 * JavaScript value rules it applies to response data.
 */
module Http {
  import opened Wrappers

  /**
   * The result of a request: no response at all, or a status, the response
   * headers and the decoded body.
   */
  datatype Reply<D> = NetworkError | Response(status: int, headers: Headers, data: D)

  /** Response headers as the application receives them: axios' header parser lower-cases every name. */
  type Headers = h: map<string, string> | LowerCaseNames(h) witness map[]

  /**
   * axios' default `validateStatus`: the promise resolves only for a 2xx
   * status; anything else, or no response, rejects and lands in the
   * caller's `catch`.
   */
  predicate Resolves<D>(r: Reply<D>) {
    r.Response? && 200 <= r.status < 300
  }

  /** A resolved reply with status 204 No Content, the backend's success signal. */
  predicate IsNoContent<D>(r: Reply<D>) {
    Resolves(r) && r.status == 204
  }

  /** A JSON-ish value as JavaScript sees it, enough to decide truthiness. */
  datatype JsValue = Undefined | Null | Bool(b: bool) | Number(n: int) | Str(s: string) | Object

  /** JavaScript truthiness: `false`, `0`, `""`, `null` and `undefined` are falsy. */
  predicate Truthy(v: JsValue) {
    match v
    case Undefined => false
    case Null => false
    case Bool(b) => b
    case Number(n) => n != 0
    case Str(s) => s != ""
    case Object => true
  }

  function LowerChar(c: char): char {
    if 'A' <= c <= 'Z' then (c as int + 32) as char else c
  }

  /** ASCII lower-casing, as applied to header names. */
  function Lower(s: string): (r: string)
    ensures |r| == |s|
    ensures forall k :: 0 <= k < |s| ==> r[k] == LowerChar(s[k])
  {
    seq(|s|, k requires 0 <= k < |s| => LowerChar(s[k]))
  }

  /** `headers[name]`: plain property access, exact name only. */
  function HeaderProperty(h: map<string, string>, name: string): Option<string> {
    if name in h then Some(h[name]) else None
  }

  /** Lower-casing twice is lower-casing once. */
  lemma LowerIdempotent(s: string)
    ensures Lower(Lower(s)) == Lower(s)
  {
  }

  /**
   * `headers.get(name)` on axios' headers object: a case-insensitive lookup.
   * A header is found exactly when some delivered name equals `name` up to
   * case, and then its value is returned.
   */
  function HeaderGet(h: Headers, name: string): (r: Option<string>)
    ensures r.Some? <==> exists k :: k in h && Lower(k) == Lower(name)
    ensures r.Some? ==> exists k :: k in h && Lower(k) == Lower(name) && r.value == h[k]
  {
    LowerIdempotent(name);
    HeaderProperty(h, Lower(name))
  }

  /** Header names in lower case, as axios delivers them. */
  predicate LowerCaseNames(h: map<string, string>) {
    forall name :: name in h ==> Lower(name) == name
  }

  /** A name with an upper-case letter is never found by property access on delivered headers. */
  lemma MixedCaseNameMissing(h: Headers, name: string, k: int)
    requires 0 <= k < |name| && 'A' <= name[k] <= 'Z'
    ensures HeaderProperty(h, name).None?
  {
    assert Lower(name) != name by {
      assert Lower(name)[k] != name[k];
    }
  }
}
