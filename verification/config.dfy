/** `RedactionConfig` of `config.py`: how many digits to leave visible on each
    side of an ID or a phone number, and an `exclude` section read verbatim.

    A configuration is the parsed JSON object: per-kind sections holding the
    integer keep counts, and the optional `exclude` section, whose entries are
    kept as their raw JSON text. */
module Config {
  import opened Basics

  /** One section such as `{"left_keep": 2, "right_keep": 2}`. */
  type Section = map<string, int>

  datatype Config = Config(sections: map<string, Section>, exclude: Option<map<string, string>>)

  /** What reading the configuration file gave. */
  datatype ConfigSource = Missing | Unreadable | Parsed(cfg: Config)

  /** The built-in configuration: keep 2 + 2 digits of an ID, 4 + 2 of a phone. */
  const DefaultConfig: Config :=
    Config(map["id" := map["left_keep" := 2, "right_keep" := 2],
               "phone" := map["left_keep" := 4, "right_keep" := 2]],
           None)

  /** `RedactionConfig._load`: the parsed file as it is, or the built-in
      configuration when the file is missing or cannot be read. */
  function LoadConfig(src: ConfigSource): (c: Config)
    ensures src.Parsed? ==> c == src.cfg
    ensures !src.Parsed? ==> GetKeep(c, "id") == (2, 2) && GetKeep(c, "phone") == (4, 2)
  {
    if src.Parsed? then src.cfg else DefaultConfig
  }

  /** `cfg.get(kind, {}).get(key, dflt)`. */
  function Lookup(cfg: Config, kind: string, key: string, dflt: int): (v: int)
    ensures kind in cfg.sections && key in cfg.sections[kind] ==> v == cfg.sections[kind][key]
    ensures !(kind in cfg.sections && key in cfg.sections[kind]) ==> v == dflt
  {
    if kind in cfg.sections && key in cfg.sections[kind] then cfg.sections[kind][key] else dflt
  }

  /** `get_keep(kind)`: the stored left and right counts, each 0 when absent. */
  function GetKeep(cfg: Config, kind: string): (lr: (int, int))
    ensures kind !in cfg.sections ==> lr == (0, 0)
    ensures kind in cfg.sections && "left_keep" in cfg.sections[kind] ==> lr.0 == cfg.sections[kind]["left_keep"]
    ensures kind in cfg.sections && "left_keep" !in cfg.sections[kind] ==> lr.0 == 0
    ensures kind in cfg.sections && "right_keep" in cfg.sections[kind] ==> lr.1 == cfg.sections[kind]["right_keep"]
    ensures kind in cfg.sections && "right_keep" !in cfg.sections[kind] ==> lr.1 == 0
  {
    (Lookup(cfg, kind, "left_keep", 0), Lookup(cfg, kind, "right_keep", 0))
  }

  /** `get_exclusion(key, default)`: the stored entry, else the caller's default. */
  function GetExclusion(cfg: Config, key: string, dflt: Option<string>): (e: Option<string>)
    ensures cfg.exclude.Some? && key in cfg.exclude.value ==> e == Some(cfg.exclude.value[key])
    ensures cfg.exclude.None? || key !in cfg.exclude.value ==> e == dflt
  {
    match cfg.exclude
    case None => dflt
    case Some(ex) => if key in ex then Some(ex[key]) else dflt
  }

  /** A parsed file replaces the built-in configuration entirely: a kind the
      file does not mention keeps nothing, even `id` and `phone`. */
  lemma {:induction false} LoadedConfigNotMerged(c: Config)
    requires "id" !in c.sections
    ensures GetKeep(LoadConfig(Parsed(c)), "id") == (0, 0)
    ensures GetKeep(LoadConfig(Missing), "id") == (2, 2)
  {
    assert LoadConfig(Parsed(c)) == c;
  }
}
