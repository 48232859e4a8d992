/** Loading the YAML configuration (config/load.go, config/defaults.go).
    Reading the file and parsing the YAML are inputs: what the read gave
    (the text or an error) and the parser, which yields a configuration
    whose missing fields are zero, or an error. */
module Config {
  import opened Wrappers

  datatype Data = Data(notesDir: string, indexDir: string)

  datatype Tui = Tui(width: int)

  datatype Config = Config(ollamaHost: string, model: string, data: Data, tui: Tui)

  /** `DefaultConfig`. */
  function DefaultConfig(): (r: Config)
    ensures r.ollamaHost == "http://127.0.0.1:11434" && r.model == "llama3"
    ensures r.data == Data("data/notes", "data/index") && r.tui.width == 80
  {
    Config("http://127.0.0.1:11434", "llama3", Data("data/notes", "data/index"), Tui(80))
  }

  /** What a parse of an empty YAML document gives: every field zero. */
  function ZeroConfig(): Config {
    Config("", "", Data("", ""), Tui(0))
  }

  /** The field-by-field merge of `yamlConfigOverride`, starting from `base`:
      each field of `src` that differs from the base replaces it. Every field
      of `src` wins, whatever it holds. */
  function OverrideFrom(base: Config, src: Config): (r: Config)
    ensures r == src
  {
    var c1 := if base.ollamaHost != src.ollamaHost then base.(ollamaHost := src.ollamaHost) else base;
    var c2 := if c1.data != src.data then c1.(data := src.data) else c1;
    var c3 := if c2.data.notesDir != src.data.notesDir then c2.(data := c2.data.(notesDir := src.data.notesDir)) else c2;
    var c4 := if c3.data.indexDir != src.data.indexDir then c3.(data := c3.data.(indexDir := src.data.indexDir)) else c3;
    var c5 := if c4.model != src.model then c4.(model := src.model) else c4;
    if c5.tui.width != src.tui.width then c5.(tui := c5.tui.(width := src.tui.width)) else c5
  }

  /** `yamlConfigOverride`: the merge onto the defaults. */
  function YamlConfigOverride(src: Config): (r: Config)
    ensures r.ollamaHost == src.ollamaHost && r.model == src.model
    ensures r.data == src.data && r.tui == src.tui
  {
    OverrideFrom(DefaultConfig(), src)
  }

  /** Merging twice is merging once. */
  lemma OverrideIdempotent(src: Config)
    ensures YamlConfigOverride(YamlConfigOverride(src)) == YamlConfigOverride(src)
  {
  }

  /** The merge's result does not depend on the values it starts from. */
  lemma OverrideIgnoresBase(a: Config, b: Config, src: Config)
    ensures OverrideFrom(a, src) == OverrideFrom(b, src)
  {
  }

  /** A field the file leaves out stays zero rather than taking its default,
      contrary to the description of `Load`. */
  lemma MissingFieldsNotDefaulted()
    ensures YamlConfigOverride(ZeroConfig()) == ZeroConfig()
    ensures YamlConfigOverride(ZeroConfig()).ollamaHost != DefaultConfig().ollamaHost
    ensures YamlConfigOverride(ZeroConfig()).tui.width != DefaultConfig().tui.width
  {
  }

  /** `Load`: no path or an unreadable file gives the defaults without an
      error; a parse error is returned; a parsed file is merged. */
  function Load(path: string, read: Result<string>, parse: string -> Result<Config>): (r: Result<Config>)
    ensures path == "" || read.Err? ==> r == Ok(DefaultConfig())
    ensures path != "" && read.Ok? && parse(read.value).Err? ==> r == Err(parse(read.value).error)
    ensures path != "" && read.Ok? && parse(read.value).Ok? ==> r == Ok(parse(read.value).value)
    ensures r.Err? <==> path != "" && read.Ok? && parse(read.value).Err?
  {
    if |path| == 0 then Ok(DefaultConfig())
    else match read
      case Err(_) => Ok(DefaultConfig())
      case Ok(text) =>
        match parse(text)
        case Err(e) => Err(e)
        case Ok(conf) => Ok(YamlConfigOverride(conf))
  }

  /** A file giving every field yields exactly those values; the defaults
      play no part. */
  lemma FullFileOverlays(path: string, text: string, parse: string -> Result<Config>)
    requires path != "" && parse(text) == Ok(Config("http://127.0.0.1:11434", "qwen2.5", Data("d/notes", "d/index"), Tui(100)))
    ensures Load(path, Ok(text), parse).value.model == "qwen2.5"
    ensures Load(path, Ok(text), parse).value.tui.width == 100
    ensures Load(path, Ok(text), parse).value.data == Data("d/notes", "d/index")
  {
  }

  /** The defaults name the loopback address by number, not `localhost`. */
  lemma DefaultHostIsNumeric()
    ensures DefaultConfig().ollamaHost != "http://localhost:11434"
  {
    assert DefaultConfig().ollamaHost[7] == '1';
  }
}
