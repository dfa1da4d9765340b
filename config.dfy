/** Configuration defaulting and the JSON-file override of internal/config/config.go.
    The environment parse that precedes the defaults and the file decoding are
    not modelled: the decoded file is an input. */
module Config {
  import opened Models

  /** The fields of config.Config. */
  datatype Settings = Settings(serverAddr: string, baseURL: string, storagePath: string, dbAddress: string,
                               config: string, https: bool, trustedSubnet: string)

  /** The fields of the JSON configuration file (tempCfg). */
  datatype FileSettings = FileSettings(serverAddr: string, baseURL: string, storagePath: string,
                                       dbAddress: string, https: bool, trustedSubnet: string)

  /** What reading and decoding the file named by Config gives. */
  datatype FileLoad = ReadFailed | DecodeFailed | Decoded(file: FileSettings)

  const DefaultServerAddr: string := "localhost:8080"
  const DefaultStoragePath: string := "urls.json"

  /** The defaults Read applies after the environment parse. */
  function Defaults(c: Settings): (r: Settings)
    ensures r.serverAddr != "" && r.baseURL != "" && r.storagePath != ""
    ensures r.serverAddr == (if c.serverAddr == "" then DefaultServerAddr else c.serverAddr)
    ensures r.baseURL == (if c.baseURL == "" then "http://" + r.serverAddr else c.baseURL)
    ensures r.storagePath == (if c.storagePath == "" then DefaultStoragePath else c.storagePath)
    ensures r.dbAddress == c.dbAddress && r.config == c.config && r.https == c.https
    ensures r.trustedSubnet == c.trustedSubnet
  {
    var serverAddr := if c.serverAddr == "" then DefaultServerAddr else c.serverAddr;
    var baseURL := if c.baseURL == "" then "http://" + serverAddr else c.baseURL;
    var storagePath := if c.storagePath == "" then DefaultStoragePath else c.storagePath;
    c.(serverAddr := serverAddr, baseURL := baseURL, storagePath := storagePath)
  }

  /** Defaulting a second time changes nothing. */
  lemma DefaultsIdempotent(c: Settings)
    ensures Defaults(Defaults(c)) == Defaults(c)
  {
  }

  /** Every non-empty string of the file overrides the setting; HTTPS can only be switched on. */
  function Merge(c: Settings, f: FileSettings): (r: Settings)
    ensures r.config == c.config
    ensures r.https == (c.https || f.https)
  {
    Settings(if f.serverAddr != "" then f.serverAddr else c.serverAddr,
             if f.baseURL != "" then f.baseURL else c.baseURL,
             if f.storagePath != "" then f.storagePath else c.storagePath,
             if f.dbAddress != "" then f.dbAddress else c.dbAddress,
             c.config,
             if f.https then f.https else c.https,
             if f.trustedSubnet != "" then f.trustedSubnet else c.trustedSubnet)
  }

  datatype Loaded = Loaded(settings: Settings, err: Option<Error>)

  /** New: with a file name, a read or decode failure returns before any field
      changes and before Read; otherwise the file is merged and Read applied. */
  function NewStep(c: Settings, load: FileLoad): (r: Loaded)
    ensures c.config == "" ==> r == Loaded(Defaults(c), None)
    ensures c.config != "" && load == ReadFailed ==> r == Loaded(c, Some(FileFailure))
    ensures c.config != "" && load == DecodeFailed ==> r == Loaded(c, Some(DecodeFailure))
    ensures r.err == None ==> r.settings.serverAddr != "" && r.settings.baseURL != "" && r.settings.storagePath != ""
  {
    if c.config == "" then Loaded(Defaults(c), None)
    else match load
      case ReadFailed => Loaded(c, Some(FileFailure))
      case DecodeFailed => Loaded(c, Some(DecodeFailure))
      case Decoded(f) => Loaded(Defaults(Merge(c, f)), None)
  }

  /** A non-empty field of the file survives defaulting; an empty one leaves the
      setting as it was before Read, unless that setting was itself empty and Read
      defaults it; HTTPS from the file is never switched off. */
  lemma FileOverrides(c: Settings, f: FileSettings)
    requires c.config != ""
    ensures var r := NewStep(c, Decoded(f)).settings;
      && (f.serverAddr != "" ==> r.serverAddr == f.serverAddr)
      && (f.baseURL != "" ==> r.baseURL == f.baseURL)
      && (f.storagePath != "" ==> r.storagePath == f.storagePath)
      && (f.dbAddress != "" ==> r.dbAddress == f.dbAddress)
      && (f.trustedSubnet != "" ==> r.trustedSubnet == f.trustedSubnet)
      && (f.dbAddress == "" ==> r.dbAddress == c.dbAddress)
      && (f.trustedSubnet == "" ==> r.trustedSubnet == c.trustedSubnet)
      && (f.serverAddr == "" && c.serverAddr != "" ==> r.serverAddr == c.serverAddr)
      && (f.baseURL == "" && c.baseURL != "" ==> r.baseURL == c.baseURL)
      && (f.storagePath == "" && c.storagePath != "" ==> r.storagePath == c.storagePath)
      && (c.https ==> r.https)
      && (!f.https ==> r.https == c.https)
  {
  }

  /** A successful New leaves settings that a further Read does not change. */
  lemma NewIsSettled(c: Settings, load: FileLoad)
    requires NewStep(c, load).err == None
    ensures Defaults(NewStep(c, load).settings) == NewStep(c, load).settings
  {
  }

  /** The configuration object. */
  class Cfg {
    var serverAddr: string
    var baseURL: string
    var storagePath: string
    var dbAddress: string
    var config: string
    var https: bool
    var trustedSubnet: string

    function Model(): Settings
      reads this
    {
      Settings(serverAddr, baseURL, storagePath, dbAddress, config, https, trustedSubnet)
    }

    constructor (s: Settings)
      ensures Model() == s
    {
      serverAddr, baseURL, storagePath := s.serverAddr, s.baseURL, s.storagePath;
      dbAddress, config, https, trustedSubnet := s.dbAddress, s.config, s.https, s.trustedSubnet;
    }

    /** Read, after the environment parse. */
    method Read()
      modifies this
      ensures Model() == Defaults(old(Model()))
    {
      if serverAddr == "" {
        serverAddr := DefaultServerAddr;
      }
      if baseURL == "" {
        baseURL := "http://" + serverAddr;
      }
      if storagePath == "" {
        storagePath := DefaultStoragePath;
      }
    }

    /** New */
    method New(load: FileLoad) returns (err: Option<Error>)
      modifies this
      ensures Loaded(Model(), err) == NewStep(old(Model()), load)
    {
      if config != "" {
        match load {
          case ReadFailed =>
            return Some(FileFailure);
          case DecodeFailed =>
            return Some(DecodeFailure);
          case Decoded(f) =>
            if f.baseURL != "" {
              baseURL := f.baseURL;
            }
            if f.serverAddr != "" {
              serverAddr := f.serverAddr;
            }
            if f.storagePath != "" {
              storagePath := f.storagePath;
            }
            if f.trustedSubnet != "" {
              trustedSubnet := f.trustedSubnet;
            }
            if f.dbAddress != "" {
              dbAddress := f.dbAddress;
            }
            if f.https {
              https := f.https;
            }
        }
      }
      Read();
      return None;
    }
  }
}
