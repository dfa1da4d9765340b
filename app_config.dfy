/** The defaulting of the earlier counter-based server's configuration,
    internal/app/config/config.go. */
module AppConfig {

  datatype Settings = Settings(httpAddr: string, baseAddr: string)

  /** The address Read falls back to. */
  const DefaultHTTPAddr: string := "localhost:8080"

  /** Read: an empty HTTPAddr becomes the default address, then an empty
      BaseAddr becomes "http://" followed by the already-defaulted HTTPAddr. */
  function Defaults(c: Settings): (r: Settings)
    ensures r.httpAddr != "" && r.baseAddr != ""
    ensures c.httpAddr != "" ==> r.httpAddr == c.httpAddr
    ensures c.baseAddr != "" ==> r.baseAddr == c.baseAddr
    ensures c.httpAddr == "" ==> r.httpAddr == DefaultHTTPAddr
    ensures c.baseAddr == "" ==> r.baseAddr == "http://" + r.httpAddr
  {
    var httpAddr := if c.httpAddr == "" then DefaultHTTPAddr else c.httpAddr;
    Settings(httpAddr, if c.baseAddr == "" then "http://" + httpAddr else c.baseAddr)
  }

  /** A second Read changes nothing. */
  lemma DefaultsIdempotent(c: Settings)
    ensures Defaults(Defaults(c)) == Defaults(c)
  {
  }

  /** The configuration object. */
  class Cfg {
    var httpAddr: string
    var baseAddr: string

    function Model(): Settings
      reads this
    {
      Settings(httpAddr, baseAddr)
    }

    constructor (s: Settings)
      ensures Model() == s
    {
      httpAddr, baseAddr := s.httpAddr, s.baseAddr;
    }

    /** Read */
    method Read()
      modifies this
      ensures Model() == Defaults(old(Model()))
    {
      if httpAddr == "" {
        httpAddr := DefaultHTTPAddr;
      }
      if baseAddr == "" {
        baseAddr := "http://" + httpAddr;
      }
    }
  }
}
