/**
  ConfigManager: the loaded YAML configuration (or none yet) and the debug
  flag, with getters that fall back to fixed defaults.
 */
module Config {

  import opened Wrappers
  import Text

  /** A scalar stored in the YAML tree. */
  datatype Value = BoolValue(b: bool) | IntValue(i: int) | RealValue(r: real) | StringValue(s: string)

  /** A configuration as the host resolves it: full dotted path to value, bundled defaults included. */
  type Yaml = map<string, Value>

  /** ConfigurationSection.getBoolean(path, def): the stored boolean, else the default. */
  function GetBoolean(y: Yaml, path: string, def: bool): bool {
    if path in y && y[path].BoolValue? then y[path].b else def
  }

  /** Java's (int) cast of a double: truncation toward zero. */
  function TruncateToInt(r: real): int {
    if r >= 0.0 then r.Floor else -((-r).Floor)
  }

  /** ConfigurationSection.getInt(path, def): any stored number, truncated; else the default. */
  function GetInt(y: Yaml, path: string, def: int): int {
    if path in y && y[path].IntValue? then y[path].i
    else if path in y && y[path].RealValue? then TruncateToInt(y[path].r)
    else def
  }

  /** ConfigurationSection.getDouble(path, def): any stored number, else the default. */
  function GetDouble(y: Yaml, path: string, def: real): real {
    if path in y && y[path].RealValue? then y[path].r
    else if path in y && y[path].IntValue? then y[path].i as real
    else def
  }

  /** ConfigurationSection.getString(path): the stored string, or null. */
  function LookupString(y: Yaml, path: string): Option<string> {
    if path in y && y[path].StringValue? then Some(y[path].s) else None
  }

  /** ConfigurationSection.getString(path, def). */
  function GetString(y: Yaml, path: string, def: string): string {
    match LookupString(y, path)
    case Some(s) => s
    case None => def
  }

  /** Path of a message in one language. */
  function MessagePath(language: string, key: string): string {
    "messages." + language + "." + key
  }

  class ConfigManager {
    /** The loaded configuration; None until a load has run. */
    var config: Option<Yaml>
    var debugMode: bool

    constructor ()
      ensures config == None && !debugMode
      ensures DebugFromConfig()
    {
      config := None;
      debugMode := false;
    }

    /** loadConfigAsync, with the file already read by the host. */
    method LoadConfig(file: Yaml)
      modifies this
      ensures config == Some(file)
      ensures debugMode == GetBoolean(file, "settings.debug", false)
      ensures DebugFromConfig()
    {
      config := Some(file);
      debugMode := GetBoolean(file, "settings.debug", false);
    }

    /** reloadConfigAsync, with the file already read by the host; reports success. */
    method ReloadConfig(file: Yaml) returns (success: bool)
      modifies this
      ensures config == Some(file)
      ensures debugMode == GetBoolean(file, "settings.debug", false)
      ensures DebugFromConfig()
      ensures success
    {
      config := Some(file);
      debugMode := GetBoolean(file, "settings.debug", false);
      success := true;
    }

    /** `config != null && config.getBoolean(path, def)`. */
    function Flag(path: string, def: bool): bool
      reads this
    {
      config.Some? && GetBoolean(config.value, path, def)
    }

    function IsEnabled(): (r: bool)
      reads this
      ensures config.None? ==> !r
      ensures config.Some? && "settings.enabled" !in config.value ==> r
    {
      Flag("settings.enabled", true)
    }

    /** The debug flag agrees with the configuration: off before any load, settings.debug (default false) after one. */
    predicate DebugFromConfig()
      reads this
    {
      debugMode == (config.Some? && GetBoolean(config.value, "settings.debug", false))
    }

    /** isDebugMode: the flag the last load read. */
    function IsDebugMode(): (r: bool)
      reads this
      ensures DebugFromConfig() ==> (r <==> config.Some? && GetBoolean(config.value, "settings.debug", false))
    {
      debugMode
    }

    function GetLanguage(): (r: string)
      reads this
      ensures config.None? ==> r == "en"
      ensures config.Some? && "settings.language" !in config.value ==> r == "en"
    {
      if config.Some? then GetString(config.value, "settings.language", "en") else "en"
    }

    function IsNetherBlocked(): (r: bool)
      reads this
      ensures config.None? ==> !r
      ensures config.Some? && "portals.block_nether" !in config.value ==> r
    {
      Flag("portals.block_nether", true)
    }

    function IsEndBlocked(): (r: bool)
      reads this
      ensures config.None? ==> !r
      ensures config.Some? && "portals.block_end" !in config.value ==> r
    {
      Flag("portals.block_end", true)
    }

    function IsCustomBlocked(): (r: bool)
      reads this
      ensures config.None? || "portals.block_custom" !in config.value ==> !r
    {
      Flag("portals.block_custom", false)
    }

    function IsKnockbackEnabled(): (r: bool)
      reads this
      ensures config.None? ==> !r
      ensures config.Some? && "knockback.enabled" !in config.value ==> r
    {
      Flag("knockback.enabled", true)
    }

    function GetKnockbackStrength(): (r: real)
      reads this
      ensures config.None? ==> r == 1.5
    {
      if config.Some? then GetDouble(config.value, "knockback.strength", 1.5) else 1.5
    }

    function GetKnockbackHeight(): (r: real)
      reads this
      ensures config.None? ==> r == 0.8
    {
      if config.Some? then GetDouble(config.value, "knockback.height", 0.8) else 0.8
    }

    function IsKnockbackSoundEnabled(): (r: bool)
      reads this
      ensures config.None? ==> !r
      ensures config.Some? && "knockback.play_sound" !in config.value ==> r
    {
      Flag("knockback.play_sound", true)
    }

    function GetKnockbackSoundType(): (r: string)
      reads this
      ensures config.None? ==> r == "ENTITY_VILLAGER_NO"
    {
      if config.Some? then GetString(config.value, "knockback.sound_type", "ENTITY_VILLAGER_NO")
      else "ENTITY_VILLAGER_NO"
    }

    function GetKnockbackSoundVolume(): (r: real)
      reads this
      ensures config.None? ==> r == 0.7
    {
      if config.Some? then GetDouble(config.value, "knockback.sound_volume", 0.7) else 0.7
    }

    function GetKnockbackSoundPitch(): (r: real)
      reads this
      ensures config.None? ==> r == 1.0
    {
      if config.Some? then GetDouble(config.value, "knockback.sound_pitch", 1.0) else 1.0
    }

    function IsCooldownEnabled(): (r: bool)
      reads this
      ensures config.None? ==> !r
      ensures config.Some? && "cooldown.enabled" !in config.value ==> r
    {
      Flag("cooldown.enabled", true)
    }

    /** Cooldown length in seconds. */
    function GetCooldownTime(): (r: int)
      reads this
      ensures config.None? ==> r == 5
      ensures config.Some? && "cooldown.time_seconds" !in config.value ==> r == 5
    {
      if config.Some? then GetInt(config.value, "cooldown.time_seconds", 5) else 5
    }

    function IsCooldownMessageEnabled(): (r: bool)
      reads this
      ensures config.None? ==> !r
      ensures config.Some? && "cooldown.show_message" !in config.value ==> r
    {
      Flag("cooldown.show_message", true)
    }

    /**
      getMessage(key): the text under messages.<language>.<key>, else (for a
      language other than "en") under messages.en.<key>, else a fixed
      "not found" text; before any load, a fixed "not loaded" text.
     */
    function GetMessage(key: string): (r: string)
      reads this
      ensures config.None? ==> r == "&cConfiguration not loaded"
      ensures config.Some? ==>
        var local := LookupString(config.value, MessagePath(GetLanguage(), key));
        var english := LookupString(config.value, MessagePath("en", key));
        && (local.Some? ==> r == local.value)
        && (local.None? && GetLanguage() != "en" && english.Some? ==> r == english.value)
        && (local.None? && (GetLanguage() == "en" || english.None?) ==> r == "&cMessage not found: " + key)
    {
      if config.None? then "&cConfiguration not loaded"
      else
        var language := GetLanguage();
        var message := LookupString(config.value, MessagePath(language, key));
        var message' := if message.None? && language != "en" then LookupString(config.value, MessagePath("en", key)) else message;
        if message'.None? then "&cMessage not found: " + key else message'.value
    }

    /** getMessage(key, placeholder, value): the message with every "{placeholder}" replaced by `value`. */
    function GetMessageWith(key: string, placeholder: string, value: string): (r: string)
      reads this
      ensures !Text.Occurs(GetMessage(key), "{" + placeholder + "}") ==> r == GetMessage(key)
    {
      var message, token := GetMessage(key), "{" + placeholder + "}";
      if Text.Occurs(message, token) then Text.Replace(message, token, value)
      else
        Text.ReplaceAbsent(message, token, value);
        Text.Replace(message, token, value)
    }

    /** getPermission(key): the configured node, defaulting to "portals." + key. */
    function GetPermission(key: string): (r: string)
      reads this
      ensures config.None? ==> r == "portals." + key
      ensures config.Some? && "permissions." + key !in config.value ==> r == "portals." + key
      ensures config.Some? && LookupString(config.value, "permissions." + key).Some? ==>
        r == config.value["permissions." + key].s
    {
      if config.None? then "portals." + key
      else GetString(config.value, "permissions." + key, "portals." + key)
    }

    function IsLoaded(): (r: bool)
      reads this
      ensures r <==> config.Some?
    {
      config.Some?
    }
  }

  /**
    Substitution replaces the first "{placeholder}" by the value and goes on
    the same way through the rest, so every occurrence is replaced.
   */
  lemma GetMessageWithReplacesFirst(cm: ConfigManager, key: string, placeholder: string, value: string,
                                    before: string, rest: string)
    requires cm.GetMessage(key) == before + ("{" + placeholder + "}") + rest
    requires Text.NoMatchStartsIn(before, ("{" + placeholder + "}") + rest, "{" + placeholder + "}")
    ensures cm.GetMessageWith(key, placeholder, value) == before + value + Text.Replace(rest, "{" + placeholder + "}", value)
  {
    Text.ReplaceFirst(before, rest, "{" + placeholder + "}", value);
  }
}
