/** The earlier counter-based server, internal/app/transport/transport.go: a
    package-level map from code to URL and a counter, behind two handlers. The
    integer encoder (jcoene/go-base62) is a parameter. */
module AppTransport {
  import AppConfig

  /** An HTTP request as the handlers see it: its method, its body (or a read
      failure), and the :id path parameter. */
  datatype Body = ReadError | Text(text: string)
  datatype Request = Request(verb: string, body: Body, id: string)

  /** The status, the body written and the Location header, if any. */
  datatype Response = Response(status: int, body: string, location: string)

  const StatusCreated: int := 201
  const StatusTemporaryRedirect: int := 307
  const StatusBadRequest: int := 400

  /** The body c.JSON writes for a message: a JSON string (none of the messages
      below holds a character JSON escapes). */
  function JSONMessage(msg: string): string {
    "\"" + msg + "\""
  }

  function BadRequest(msg: string): Response {
    Response(StatusBadRequest, JSONMessage(msg), "")
  }

  /** Go's int is 64 bits wide: counter * 1000000 wraps around. */
  function Wrap64(x: int): (r: int)
    ensures -0x8000_0000_0000_0000 <= r < 0x8000_0000_0000_0000
    ensures (r - x) % 0x1_0000_0000_0000_0000 == 0
    ensures -0x8000_0000_0000_0000 <= x < 0x8000_0000_0000_0000 ==> r == x
  {
    (x + 0x8000_0000_0000_0000) % 0x1_0000_0000_0000_0000 - 0x8000_0000_0000_0000
  }

  predicate HasPrefix(s: string, p: string) {
    |p| <= |s| && s[..|p|] == p
  }

  /** The server's state: the URL map and the counter. */
  datatype State = State(urlMap: map<string, string>, counter: int)

  datatype Posted = Posted(state: State, response: Response)

  /** PostURL: the method, then the body, then its scheme are checked, each
      refusal leaving the state alone; an accepted URL increments the counter,
      is stored under the code of counter * 1000000 and answered with
      BaseAddr + "/" + code. */
  function PostStep(s: State, cfg: AppConfig.Settings, encode: int -> string, req: Request): (r: Posted)
    ensures r.response.status == StatusCreated <==>
      req.verb == "POST" && req.body.Text? && req.body.text != "" &&
      (HasPrefix(req.body.text, "https://") || HasPrefix(req.body.text, "http://"))
    ensures r.response.status != StatusCreated ==> r.state == s && r.response.status == StatusBadRequest
  {
    if req.verb != "POST" then Posted(s, BadRequest("Only POST method allowed!"))
    else match req.body
      case ReadError => Posted(s, BadRequest("Cant read body!"))
      case Text(body) =>
        if |body| == 0 then Posted(s, BadRequest("Empty body!"))
        else if !HasPrefix(body, "https://") && !HasPrefix(body, "http://") then
          Posted(s, BadRequest("Mallformed URI!"))
        else
          var counter := Wrap64(s.counter + 1);
          var code := encode(Wrap64(counter * 1000000));
          Posted(State(s.urlMap[code := body], counter), Response(StatusCreated, cfg.baseAddr + "/" + code, ""))
  }

  /** The refusals, in the order PostURL checks them. */
  lemma PostRefusals(s: State, cfg: AppConfig.Settings, encode: int -> string, req: Request)
    ensures req.verb != "POST" ==> PostStep(s, cfg, encode, req) == Posted(s, BadRequest("Only POST method allowed!"))
    ensures req.verb == "POST" && req.body.ReadError? ==>
      PostStep(s, cfg, encode, req) == Posted(s, BadRequest("Cant read body!"))
    ensures req.verb == "POST" && req.body == Text("") ==>
      PostStep(s, cfg, encode, req) == Posted(s, BadRequest("Empty body!"))
    ensures req.verb == "POST" && req.body.Text? && req.body.text != "" &&
            !HasPrefix(req.body.text, "https://") && !HasPrefix(req.body.text, "http://") ==>
      PostStep(s, cfg, encode, req) == Posted(s, BadRequest("Mallformed URI!"))
  {
  }

  /** An accepted POST increments the counter by one, maps the new code to the body
      and answers 201 with the short link. */
  lemma PostAccepted(s: State, cfg: AppConfig.Settings, encode: int -> string, url: string)
    requires -0x8000_0000_0000_0000 <= s.counter < 0x7FFF_FFFF_FFFF_FFFF
    requires HasPrefix(url, "http://") || HasPrefix(url, "https://")
    ensures var r := PostStep(s, cfg, encode, Request("POST", Text(url), ""));
      var code := encode(Wrap64((s.counter + 1) * 1000000));
      && r.state.counter == s.counter + 1
      && r.state.urlMap == s.urlMap[code := url]
      && r.response == Response(StatusCreated, cfg.baseAddr + "/" + code, "")
  {
  }

  /** There is no deduplication: posting one URL twice stores it under two codes,
      as long as the encoder tells the two counters apart. */
  lemma NoDeduplication(s: State, cfg: AppConfig.Settings, encode: int -> string, url: string)
    requires -0x8000_0000_0000_0000 <= s.counter < 0x7FFF_FFFF_FFFF_FFFE
    requires HasPrefix(url, "http://")
    requires encode(Wrap64((s.counter + 1) * 1000000)) != encode(Wrap64((s.counter + 2) * 1000000))
    ensures var r1 := PostStep(s, cfg, encode, Request("POST", Text(url), ""));
      var r2 := PostStep(r1.state, cfg, encode, Request("POST", Text(url), ""));
      var c1 := encode(Wrap64((s.counter + 1) * 1000000));
      var c2 := encode(Wrap64((s.counter + 2) * 1000000));
      && c1 in r2.state.urlMap && c2 in r2.state.urlMap
      && r2.state.urlMap[c1] == url && r2.state.urlMap[c2] == url
      && r2.response.body != r1.response.body
  {
    var c1 := encode(Wrap64((s.counter + 1) * 1000000));
    var c2 := encode(Wrap64((s.counter + 2) * 1000000));
    var n := |cfg.baseAddr| + 1;
    assert (cfg.baseAddr + "/" + c1)[n..] == c1;
    assert (cfg.baseAddr + "/" + c2)[n..] == c2;
  }

  /** GetURL: a known id redirects to its URL, an unknown one and an empty one are refused. */
  function GetStep(s: State, req: Request): (r: Response)
    ensures req.verb == "GET" && req.id != "" && req.id in s.urlMap ==>
      r == Response(StatusTemporaryRedirect, "", s.urlMap[req.id])
    ensures req.verb == "GET" && req.id != "" && req.id !in s.urlMap ==> r == BadRequest("URL not found!")
    ensures req.verb == "GET" && req.id == "" ==> r == BadRequest("URL is empty!")
    ensures req.verb != "GET" ==> r == BadRequest("Only GET method allowed!")
  {
    if req.verb != "GET" then BadRequest("Only GET method allowed!")
    else if req.id != "" then
      if req.id in s.urlMap then Response(StatusTemporaryRedirect, "", s.urlMap[req.id])
      else BadRequest("URL not found!")
    else BadRequest("URL is empty!")
  }

  /** A URL accepted by PostURL is returned by GetURL under the code in the answer. */
  lemma PostThenGet(s: State, cfg: AppConfig.Settings, encode: int -> string, url: string)
    requires HasPrefix(url, "http://") || HasPrefix(url, "https://")
    requires encode(Wrap64(Wrap64(s.counter + 1) * 1000000)) != ""
    ensures var r := PostStep(s, cfg, encode, Request("POST", Text(url), ""));
      var code := encode(Wrap64(Wrap64(s.counter + 1) * 1000000));
      GetStep(r.state, Request("GET", Text(""), code)) == Response(StatusTemporaryRedirect, "", url)
  {
  }

  /** The handlers over the package-level state. */
  class Router {
    const cfg: AppConfig.Settings
    const encode: int -> string
    var urlMap: map<string, string>
    var counter: int

    function Model(): State
      reads this
    {
      State(urlMap, counter)
    }

    constructor (cfg: AppConfig.Settings, encode: int -> string)
      ensures Model() == State(map[], 0) && this.cfg == cfg && this.encode == encode
    {
      this.cfg, this.encode := cfg, encode;
      urlMap, counter := map[], 0;
    }

    /** PostURL */
    method PostURL(req: Request) returns (resp: Response)
      modifies this
      ensures Posted(Model(), resp) == PostStep(old(Model()), cfg, encode, req)
    {
      if req.verb != "POST" {
        return BadRequest("Only POST method allowed!");
      }
      if req.body.ReadError? {
        return BadRequest("Cant read body!");
      }
      var body := req.body.text;
      if |body| == 0 {
        return BadRequest("Empty body!");
      }
      if !HasPrefix(body, "https://") && !HasPrefix(body, "http://") {
        return BadRequest("Mallformed URI!");
      }
      counter := Wrap64(counter + 1);
      var code := encode(Wrap64(counter * 1000000));
      urlMap := urlMap[code := body];
      return Response(StatusCreated, cfg.baseAddr + "/" + code, "");
    }

    /** GetURL: reads the state and never changes it. */
    method GetURL(req: Request) returns (resp: Response)
      ensures resp == GetStep(Model(), req)
    {
      if req.verb != "GET" {
        return BadRequest("Only GET method allowed!");
      }
      if req.id != "" {
        if req.id !in urlMap {
          return BadRequest("URL not found!");
        }
        return Response(StatusTemporaryRedirect, "", urlMap[req.id]);
      }
      return BadRequest("URL is empty!");
    }
  }
}
