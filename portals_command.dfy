/**
  PortalsCommand: the /portals admin command and its tab completion. The
  sender is reduced to the set of permission nodes it holds, the server's
  player lookup and online list are parameters, and every message sent is
  the raw string handed to sendMessage.
 */
module Commands {

  import opened Wrappers
  import opened Host
  import opened Expiry
  import opened Config
  import opened Cooldowns
  import opened Text

  /** An online player: its UUID and its name. */
  datatype Player = Player(id: Uuid, name: string)

  /** What onCommand does with a sender and its arguments. */
  datatype Subcommand = NoPermission | Help | Reload | Info | Cooldown | InvalidUsage

  /** The subcommands in the order tab completion offers them. */
  const SubCommands: seq<string> := ["reload", "info", "cooldown", "help"]
  /** The cooldown actions in the order tab completion offers them. */
  const CooldownActions: seq<string> := ["clear", "check"]

  const Usage := "/portals <reload|info|cooldown|help>"
  const CooldownUsage := "&cUsage: /portals cooldown <clear|check> [player]"
  const CheckUsage := "&cUsage: /portals cooldown check <player>"
  const ReloadingText := "&eReloading configuration..."
  const ReloadFailedText := "&cFailed to reload configuration. Check console for errors."

  const HelpLines: seq<string> := [
    "&6=== Portals Permission Commands ===",
    "&e/portals reload &7- Reload plugin configuration",
    "&e/portals info &7- Show plugin information",
    "&e/portals cooldown clear [player] &7- Clear cooldowns",
    "&e/portals cooldown check <player> &7- Check player cooldown",
    "&e/portals help &7- Show this help message"
  ]

  function NotFound(name: string): string {
    "&cPlayer not found: " + name
  }

  /**
    The branch onCommand takes: the admin check comes first, no argument
    shows help, and the first argument is compared after lower-casing.
   */
  function Dispatch(isAdmin: bool, args: seq<string>): (c: Subcommand)
    ensures c == NoPermission <==> !isAdmin
    ensures c == Help <==> isAdmin && (args == [] || Lower(args[0]) == "help")
    ensures c == InvalidUsage <==> isAdmin && args != [] && Lower(args[0]) !in SubCommands
    ensures c == Reload <==> isAdmin && args != [] && Lower(args[0]) == "reload"
    ensures c == Info <==> isAdmin && args != [] && Lower(args[0]) == "info"
    ensures c == Cooldown <==> isAdmin && args != [] && Lower(args[0]) == "cooldown"
  {
    if !isAdmin then NoPermission
    else if args == [] then Help
    else
      var sub := Lower(args[0]);
      if sub == "reload" then Reload
      else if sub == "info" then Info
      else if sub == "cooldown" then Cooldown
      else if sub == "help" then Help
      else InvalidUsage
  }

  /** The subcommand name is case-insensitive: lower-casing the first argument beforehand changes nothing. */
  lemma DispatchIgnoresCase(isAdmin: bool, args: seq<string>)
    requires args != []
    ensures Dispatch(isAdmin, [Lower(args[0])] + args[1..]) == Dispatch(isAdmin, args)
  {
    LowerIdempotent(args[0]);
  }

  /** The settings the info subcommand lists, before they are formatted into lines. */
  datatype InfoReport = InfoReport(
    version: string, enabled: bool, debug: bool, language: string,
    netherBlocked: bool, endBlocked: bool, customBlocked: bool,
    knockbackEnabled: bool, knockbackStrength: real, knockbackHeight: real,
    cooldownEnabled: bool, cooldownTime: int, activeCooldowns: nat)

  /** A message onCommand sends: a plain line, or the info block. */
  datatype Reply = Line(text: string) | Report(info: InfoReport)

  /** What the cooldown subcommand sends and leaves in the cooldown store. */
  datatype CooldownResult = CooldownResult(sent: seq<string>, cooldowns: map<Uuid, int>)

  /**
    handleCooldownCommand on a store `store` at instant `now`: `clear` with a
    name drops that player's entry, `clear` alone drops every entry, `check`
    reads the player's entry (evicting it if it has expired, as hasCooldown
    does); any other shape sends a usage line.
   */
  function CooldownCommand(cm: ConfigManager, store: map<Uuid, int>, args: seq<string>,
                           lookup: string -> Option<Player>, now: int): CooldownResult
    reads cm
  {
    if |args| < 2 then CooldownResult([CooldownUsage], store)
    else if Lower(args[1]) == "clear" then
      if |args| >= 3 then
        match lookup(args[2])
        case None => CooldownResult([NotFound(args[2])], store)
        case Some(target) => CooldownResult(["&aCleared cooldown for player " + target.name], store - {target.id})
      else CooldownResult(["&aCleared all cooldowns"], map[])
    else if Lower(args[1]) == "check" then
      if |args| < 3 then CooldownResult([CheckUsage], store)
      else
        match lookup(args[2])
        case None => CooldownResult([NotFound(args[2])], store)
        case Some(target) =>
          var after := if cm.IsCooldownEnabled() then AfterRead(store, target.id, now) else store;
          if cm.IsCooldownEnabled() && IsLive(store, target.id, now) then
            CooldownResult(["&ePlayer " + target.name + " has " + IntToString(CeilSeconds(store[target.id] - now)) + " seconds remaining"], after)
          else
            CooldownResult(["&aPlayer " + target.name + " has no active cooldown"], after)
    else CooldownResult([CooldownUsage], store)
  }

  /** The cooldown subcommand always answers with exactly one line. */
  lemma CooldownCommandAnswersOnce(cm: ConfigManager, store: map<Uuid, int>, args: seq<string>,
                                   lookup: string -> Option<Player>, now: int)
    ensures |CooldownCommand(cm, store, args, lookup, now).sent| == 1
  {
  }

  /** No cooldown subcommand starts or extends a cooldown: every entry left was already there, unchanged. */
  lemma CooldownCommandOnlyRemoves(cm: ConfigManager, store: map<Uuid, int>, args: seq<string>,
                                   lookup: string -> Option<Player>, now: int)
    ensures var r := CooldownCommand(cm, store, args, lookup, now);
      forall k :: k in r.cooldowns ==> k in store && r.cooldowns[k] == store[k]
  {
  }

  /** Only `clear` can end a cooldown early: any other action keeps every live entry. */
  lemma OnlyClearDropsLiveEntries(cm: ConfigManager, store: map<Uuid, int>, args: seq<string>,
                                  lookup: string -> Option<Player>, now: int, k: Uuid)
    requires |args| < 2 || Lower(args[1]) != "clear"
    requires IsLive(store, k, now)
    ensures IsLive(CooldownCommand(cm, store, args, lookup, now).cooldowns, k, now)
  {
  }

  /** `clear <player>` for a player found drops that player's entry and no other. */
  lemma ClearPlayerDropsOnlyThem(cm: ConfigManager, store: map<Uuid, int>, args: seq<string>,
                                 lookup: string -> Option<Player>, now: int, target: Player)
    requires |args| >= 3 && Lower(args[1]) == "clear" && lookup(args[2]) == Some(target)
    ensures var r := CooldownCommand(cm, store, args, lookup, now).cooldowns;
      target.id !in r && forall k :: k != target.id ==> (k in r <==> k in store)
  {
  }

  /** A player name the server does not know changes no cooldown. */
  lemma UnknownPlayerChangesNothing(cm: ConfigManager, store: map<Uuid, int>, args: seq<string>,
                                    lookup: string -> Option<Player>, now: int)
    requires |args| >= 3 && lookup(args[2]).None?
    ensures CooldownCommand(cm, store, args, lookup, now).cooldowns == store
  {
  }

  /**
    `check` right after a cooldown of `seconds` was set at `setAt` reports
    between 1 and `seconds` seconds while it lasts.
   */
  lemma CheckReportsRemaining(cm: ConfigManager, store: map<Uuid, int>, args: seq<string>,
                              lookup: string -> Option<Player>, target: Player,
                              setAt: int, seconds: int, now: int)
    requires |args| >= 3 && Lower(args[1]) == "check" && lookup(args[2]) == Some(target)
    requires cm.IsCooldownEnabled() && seconds > 0 && setAt <= now < setAt + seconds * 1000
    requires target.id in store && store[target.id] == setAt + seconds * 1000
    ensures var n := CeilSeconds(store[target.id] - now);
      1 <= n <= seconds &&
      CooldownCommand(cm, store, args, lookup, now).sent
        == ["&ePlayer " + target.name + " has " + IntToString(n) + " seconds remaining"]
  {
    assert Lower(args[1]) != "clear";
    RemainingWithinSet(setAt, seconds, now);
  }

  /** The key a candidate is matched on: itself, or lower-cased for player names. */
  function MatchKey(candidate: string, fold: bool): string {
    if fold then Lower(candidate) else candidate
  }

  /** The candidates, in order, whose key starts with `input`. */
  function Matches(candidates: seq<string>, input: string, fold: bool): seq<string> {
    if candidates == [] then []
    else
      var last := candidates[|candidates| - 1];
      Matches(candidates[..|candidates| - 1], input, fold) + (if IsPrefix(input, MatchKey(last, fold)) then [last] else [])
  }

  /** A completion is offered exactly when it is a candidate whose key starts with the input. */
  lemma {:induction false} MatchesMembers(candidates: seq<string>, input: string, fold: bool)
    ensures forall x :: x in Matches(candidates, input, fold) <==> x in candidates && IsPrefix(input, MatchKey(x, fold))
  {
    if candidates != [] {
      var init := candidates[..|candidates| - 1];
      MatchesMembers(init, input, fold);
      assert candidates == init + [candidates[|candidates| - 1]];
    }
  }

  /** Empty input offers every candidate, in the original order. */
  lemma {:induction false} MatchesEmptyInput(candidates: seq<string>, fold: bool)
    ensures Matches(candidates, "", fold) == candidates
  {
    if candidates != [] {
      var init := candidates[..|candidates| - 1];
      MatchesEmptyInput(init, fold);
      assert candidates == init + [candidates[|candidates| - 1]];
    }
  }

  /** Filtering keeps the candidates' order: the completions are a sub-sequence, never longer. */
  lemma {:induction false} MatchesNoLonger(candidates: seq<string>, input: string, fold: bool)
    ensures |Matches(candidates, input, fold)| <= |candidates|
  {
    if candidates != [] {
      MatchesNoLonger(candidates[..|candidates| - 1], input, fold);
    }
  }

  /** The for-each loop of onTabComplete over one candidate list. */
  method CollectMatches(candidates: seq<string>, input: string, fold: bool) returns (completions: seq<string>)
    ensures completions == Matches(candidates, input, fold)
  {
    completions := [];
    for i := 0 to |candidates|
      invariant completions == Matches(candidates[..i], input, fold)
    {
      assert candidates[..i + 1][..i] == candidates[..i];
      if IsPrefix(input, MatchKey(candidates[i], fold)) {
        completions := completions + [candidates[i]];
      }
    }
    assert candidates[..|candidates|] == candidates;
  }

  /** `s` equals "cooldown" ignoring case (String.equalsIgnoreCase, ASCII). */
  predicate IsCooldownWord(s: string) {
    Lower(s) == "cooldown"
  }

  /** The "&([0-9a-fk-or])" class of legacy colour and format codes. */
  predicate IsLegacyCode(c: char) {
    '0' <= c <= '9' || 'a' <= c <= 'f' || 'k' <= c <= 'o' || c == 'r'
  }

  const Section: char := '\U{00A7}'

  /**
    What the fallback puts at position `i` of `s`: '§' for an '&' followed by
    a code character, the character itself otherwise. A code character is
    never '&', so the two characters a match consumes never start another.
   */
  function ConvertedAt(s: string, i: int): char
    requires 0 <= i < |s|
  {
    if s[i] == '&' && i + 1 < |s| && IsLegacyCode(s[i + 1]) then Section else s[i]
  }

  /**
    The plain-text fallback of sendMessage: replaceAll("&([0-9a-fk-or])", "§$1"),
    scanning left to right: an '&' followed by a code character becomes '§',
    and every other character, an '&' before anything else included, stays.
   */
  function LegacyToSection(s: string): (r: string)
    ensures |r| == |s|
    ensures forall i :: 0 <= i < |s| ==> r[i] == ConvertedAt(s, i)
  {
    if |s| < 2 then s
    else if s[0] == '&' && IsLegacyCode(s[1]) then [Section, s[1]] + LegacyToSection(s[2..])
    else [s[0]] + LegacyToSection(s[1..])
  }

  /** Position `i` of `r` holds an "&" followed by a code character. */
  predicate CodeAt(r: string, i: int) {
    0 <= i < |r| - 1 && r[i] == '&' && IsLegacyCode(r[i + 1])
  }

  /** After the fallback no "&" is followed by a code character. */
  lemma {:induction false} LegacyToSectionLeavesNoCode(s: string)
    ensures forall i :: !CodeAt(LegacyToSection(s), i)
  {
    if |s| >= 2 {
      var r := LegacyToSection(s);
      if s[0] == '&' && IsLegacyCode(s[1]) {
        var rest := LegacyToSection(s[2..]);
        LegacyToSectionLeavesNoCode(s[2..]);
        assert r == [Section, s[1]] + rest;
        forall i
          ensures !CodeAt(r, i)
        {
          assert !CodeAt(rest, i - 2);
        }
      } else {
        var rest := LegacyToSection(s[1..]);
        LegacyToSectionLeavesNoCode(s[1..]);
        assert r == [s[0]] + rest;
        forall i
          ensures !CodeAt(r, i)
        {
          assert !CodeAt(rest, i - 1);
        }
      }
    }
  }

  /** An '&' before another '&' is not a code: "&&a" becomes "&§a". */
  lemma LegacyToSectionDoubleAmpersand()
    ensures LegacyToSection("&&a") == ['&', Section, 'a']
  {
    assert ConvertedAt("&&a", 0) == '&';
  }

  /** A string without '&' passes through the fallback unchanged. */
  lemma LegacyToSectionPlain(s: string)
    requires '&' !in s
    ensures LegacyToSection(s) == s
  {
  }

  class PortalsCommand {
    const configManager: ConfigManager
    const cooldownManager: CooldownManager

    constructor (configManager: ConfigManager, cooldownManager: CooldownManager)
      ensures this.configManager == configManager && this.cooldownManager == cooldownManager
    {
      this.configManager := configManager;
      this.cooldownManager := cooldownManager;
    }

    /** The values handleInfoCommand prints, read from the configuration and the cooldown manager. */
    function InfoOf(version: string): InfoReport
      reads configManager, cooldownManager
    {
      InfoReport(version, configManager.IsEnabled(), configManager.IsDebugMode(), configManager.GetLanguage(),
        configManager.IsNetherBlocked(), configManager.IsEndBlocked(), configManager.IsCustomBlocked(),
        configManager.IsKnockbackEnabled(), configManager.GetKnockbackStrength(), configManager.GetKnockbackHeight(),
        configManager.IsCooldownEnabled(), configManager.GetCooldownTime(), cooldownManager.GetActiveCooldownCount())
    }

    /** handleCooldownCommand: the effect and the reply are those of CooldownCommand. */
    method HandleCooldownCommand(args: seq<string>, lookup: string -> Option<Player>, now: int) returns (sent: seq<string>)
      modifies cooldownManager`cooldowns
      ensures CooldownResult(sent, cooldownManager.cooldowns)
        == CooldownCommand(cooldownManager.configManager, old(cooldownManager.cooldowns), args, lookup, now)
    {
      if |args| < 2 {
        return [CooldownUsage];
      }
      var action := Lower(args[1]);
      if action == "clear" {
        if |args| >= 3 {
          var target := lookup(args[2]);
          if target.None? {
            return [NotFound(args[2])];
          }
          cooldownManager.RemoveCooldown(target.value.id);
          sent := ["&aCleared cooldown for player " + target.value.name];
        } else {
          cooldownManager.ClearAllCooldowns();
          sent := ["&aCleared all cooldowns"];
        }
      } else if action == "check" {
        if |args| < 3 {
          return [CheckUsage];
        }
        var target := lookup(args[2]);
        if target.None? {
          return [NotFound(args[2])];
        }
        var active := cooldownManager.HasCooldown(target.value.id, now);
        if active {
          var remaining := cooldownManager.GetRemainingCooldown(target.value.id, now);
          sent := ["&ePlayer " + target.value.name + " has " + IntToString(remaining) + " seconds remaining"];
        } else {
          sent := ["&aPlayer " + target.value.name + " has no active cooldown"];
        }
      } else {
        sent := [CooldownUsage];
      }
    }

    /**
      onCommand. The reload runs with the file the host reads (None when the
      read fails); its reply comes from the configuration as reloaded.
      The handler reports the command handled on every path.
     */
    method OnCommand(perms: set<string>, args: seq<string>, lookup: string -> Option<Player>, now: int,
                     reloaded: Option<Yaml>, version: string) returns (sent: seq<Reply>, handled: bool)
      modifies configManager, cooldownManager`cooldowns
      ensures handled
      ensures Dispatch(old(configManager.GetPermission("admin")) in perms, args) == NoPermission ==>
        sent == [Line(old(configManager.GetMessage("no_command_permission")))]
        && unchanged(configManager) && cooldownManager.cooldowns == old(cooldownManager.cooldowns)
      ensures Dispatch(old(configManager.GetPermission("admin")) in perms, args) == Help ==>
        sent == seq(|HelpLines|, i requires 0 <= i < |HelpLines| => Line(HelpLines[i]))
        && unchanged(configManager) && cooldownManager.cooldowns == old(cooldownManager.cooldowns)
      ensures Dispatch(old(configManager.GetPermission("admin")) in perms, args) == Reload ==>
        cooldownManager.cooldowns == old(cooldownManager.cooldowns)
        && (old(configManager.GetPermission("reload")) !in perms ==>
              sent == [Line(old(configManager.GetMessage("no_command_permission")))] && unchanged(configManager))
        && (old(configManager.GetPermission("reload")) in perms && reloaded.None? ==>
              sent == [Line(ReloadingText), Line(ReloadFailedText)] && unchanged(configManager))
        && (old(configManager.GetPermission("reload")) in perms && reloaded.Some? ==>
              configManager.config == reloaded
              && configManager.debugMode == GetBoolean(reloaded.value, "settings.debug", false)
              && sent == [Line(ReloadingText), Line(configManager.GetMessage("plugin_reloaded"))])
      ensures Dispatch(old(configManager.GetPermission("admin")) in perms, args) == Info ==>
        sent == [Report(old(InfoOf(version)))]
        && unchanged(configManager) && cooldownManager.cooldowns == old(cooldownManager.cooldowns)
      ensures Dispatch(old(configManager.GetPermission("admin")) in perms, args) == Cooldown ==>
        var r := CooldownCommand(cooldownManager.configManager, old(cooldownManager.cooldowns), args, lookup, now);
        sent == seq(|r.sent|, i requires 0 <= i < |r.sent| => Line(r.sent[i]))
        && cooldownManager.cooldowns == r.cooldowns && unchanged(configManager)
      ensures Dispatch(old(configManager.GetPermission("admin")) in perms, args) == InvalidUsage ==>
        sent == [Line(old(configManager.GetMessageWith("invalid_usage", "usage", Usage)))]
        && unchanged(configManager) && cooldownManager.cooldowns == old(cooldownManager.cooldowns)
    {
      handled := true;
      var command := Dispatch(configManager.GetPermission("admin") in perms, args);
      match command {
        case NoPermission =>
          sent := [Line(configManager.GetMessage("no_command_permission"))];
        case Help =>
          sent := seq(|HelpLines|, i requires 0 <= i < |HelpLines| => Line(HelpLines[i]));
        case Reload =>
          if configManager.GetPermission("reload") !in perms {
            sent := [Line(configManager.GetMessage("no_command_permission"))];
          } else if reloaded.None? {
            sent := [Line(ReloadingText), Line(ReloadFailedText)];
          } else {
            var success := configManager.ReloadConfig(reloaded.value);
            sent := [Line(ReloadingText), Line(configManager.GetMessage("plugin_reloaded"))];
          }
        case Info =>
          sent := [Report(InfoOf(version))];
        case Cooldown =>
          var lines := HandleCooldownCommand(args, lookup, now);
          sent := seq(|lines|, i requires 0 <= i < |lines| => Line(lines[i]));
        case InvalidUsage =>
          sent := [Line(configManager.GetMessageWith("invalid_usage", "usage", Usage))];
      }
    }

    /**
      onTabComplete: nothing without the admin permission; otherwise the
      subcommands, the cooldown actions, or the online player names that
      start with the lower-cased argument being typed.
     */
    method OnTabComplete(perms: set<string>, args: seq<string>, online: seq<string>) returns (completions: seq<string>)
      ensures configManager.GetPermission("admin") !in perms ==> completions == []
      ensures configManager.GetPermission("admin") in perms && |args| == 1 ==>
        completions == Matches(SubCommands, Lower(args[0]), false)
      ensures configManager.GetPermission("admin") in perms && |args| == 2 && IsCooldownWord(args[0]) ==>
        completions == Matches(CooldownActions, Lower(args[1]), false)
      ensures configManager.GetPermission("admin") in perms && |args| == 3 && IsCooldownWord(args[0]) ==>
        completions == Matches(online, Lower(args[2]), true)
      ensures (|args| == 0 || |args| > 3 || (|args| > 1 && !IsCooldownWord(args[0]))) ==> completions == []
    {
      completions := [];
      if configManager.GetPermission("admin") !in perms {
        return;
      }
      if |args| == 1 {
        completions := CollectMatches(SubCommands, Lower(args[0]), false);
      } else if |args| == 2 && IsCooldownWord(args[0]) {
        completions := CollectMatches(CooldownActions, Lower(args[1]), false);
      } else if |args| == 3 && IsCooldownWord(args[0]) {
        completions := CollectMatches(online, Lower(args[2]), true);
      }
    }
  }
}
