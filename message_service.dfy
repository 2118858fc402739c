/**
  PortalMessageService: turns configured texts into chat messages. Legacy
  '&' colour codes are rewritten into MiniMessage tags before the text is
  handed to the MiniMessage parser.
 */
module Messages {

  import opened Wrappers
  import opened Config
  import Text

  /** The 22 lower-case legacy codes and their MiniMessage tags, in the order they are replaced. */
  const LegacyCodes: seq<(char, string)> := [
    ('0', "<black>"), ('1', "<dark_blue>"), ('2', "<dark_green>"), ('3', "<dark_aqua>"),
    ('4', "<dark_red>"), ('5', "<dark_purple>"), ('6', "<gold>"), ('7', "<gray>"),
    ('8', "<dark_gray>"), ('9', "<blue>"), ('a', "<green>"), ('b', "<aqua>"),
    ('c', "<red>"), ('d', "<light_purple>"), ('e', "<yellow>"), ('f', "<white>"),
    ('k', "<obfuscated>"), ('l', "<bold>"), ('m', "<strikethrough>"), ('n', "<underlined>"),
    ('o', "<italic>"), ('r', "<reset>")
  ]

  /** A chat message: the icon component in front (possibly empty) and the MiniMessage source of the body. */
  datatype ChatMessage = ChatMessage(icon: string, body: string)

  /** A table whose tags are fit for the chain: no tag holds '&', and every tag starts with `lead`, which is no code. */
  predicate WellFormedTable(codes: seq<(char, string)>, lead: char) {
    forall i :: 0 <= i < |codes| ==>
      |codes[i].1| > 0 && codes[i].1[0] == lead && codes[i].0 != lead && '&' !in codes[i].1
  }

  /** Each code sorts strictly before the next. */
  predicate CodesAscending(codes: seq<(char, string)>) {
    forall i :: 0 < i < |codes| ==> codes[i - 1].0 < codes[i].0
  }

  /** A table whose codes ascend holds no code twice. */
  lemma {:induction false} AscendingCodesDistinct(codes: seq<(char, string)>)
    requires CodesAscending(codes)
    ensures forall i, j :: 0 <= i < j < |codes| ==> codes[i].0 < codes[j].0
  {
    if |codes| > 1 {
      var tail := codes[1..];
      assert CodesAscending(tail) by {
        forall i | 0 < i < |tail| ensures tail[i - 1].0 < tail[i].0 {
          assert tail[i - 1] == codes[i] && tail[i] == codes[i + 1];
        }
      }
      AscendingCodesDistinct(tail);
      forall i, j | 0 <= i < j < |codes| ensures codes[i].0 < codes[j].0 {
        if i > 0 {
          assert codes[i] == tail[i - 1] && codes[j] == tail[j - 1];
        } else if j > 1 {
          assert codes[1] == tail[0] && codes[j] == tail[j - 1];
        }
      }
    }
  }

  /** The replacement chain: "&" + code becomes the tag, code by code, in table order. */
  function ReplaceCodes(s: string, codes: seq<(char, string)>): string
    decreases |codes|
  {
    if codes == [] then s
    else ReplaceCodes(Text.Replace(s, ['&', codes[0].0], codes[0].1), codes[1..])
  }

  /** parseMessage, up to the MiniMessage source it deserialises. */
  function ParseMessage(message: string): string {
    ReplaceCodes(message, LegacyCodes)
  }

  /**
    One step of the chain: after "&d" is replaced by a tag without '&' whose
    first character is not c, the text holds "&c" only if c is not d and
    the text held "&c" before.
   */
  lemma {:induction false} ReplaceCodeStep(s: string, d: char, rep: string, c: char)
    requires |rep| > 0 && '&' !in rep && rep[0] != c
    ensures Text.Occurs(Text.Replace(s, ['&', d], rep), ['&', c]) ==> c != d && Text.Occurs(s, ['&', c])
  {
    var pat := ['&', d];
    var code := ['&', c];
    if |s| < 2 {
    } else if s[..2] == pat {
      ReplaceCodeStep(s[2..], d, rep, c);
      Text.OccursAfterPrefix(rep, Text.Replace(s[2..], pat, rep), code);
      if Text.Occurs(s[2..], code) {
        assert s[1..][1..] == s[2..];
      }
    } else {
      var rest := Text.Replace(s[1..], pat, rep);
      ReplaceCodeStep(s[1..], d, rep, c);
      assert ([s[0]] + rest)[1..] == rest;
      if Text.Occurs([s[0]] + rest, code) && !Text.Occurs(rest, code) {
        // The occurrence starts at s[0]: s[0] is '&' and the next output character is c,
        // which is neither a tag (tags start with rep[0] != c) nor anything but s[1].
        assert s[0] == '&' && rest[0] == c;
        if !(|s[1..]| >= 2 && s[1..][..2] == pat) {
          assert rest[0] == s[1];
          assert s[..2] == code;
        }
      }
    }
  }

  /** Through the whole chain: "&c" is in the output only if c is no code of the table and "&c" was in the input. */
  lemma {:induction false} ReplaceCodesKeepsOut(s: string, codes: seq<(char, string)>, lead: char, c: char)
    requires WellFormedTable(codes, lead) && c != lead
    ensures Text.Occurs(ReplaceCodes(s, codes), ['&', c]) ==>
      Text.Occurs(s, ['&', c]) && forall i :: 0 <= i < |codes| ==> codes[i].0 != c
    decreases |codes|
  {
    if codes != [] {
      var next := Text.Replace(s, ['&', codes[0].0], codes[0].1);
      assert forall i :: 0 <= i < |codes[1..]| ==> codes[1..][i] == codes[i + 1];
      ReplaceCodesKeepsOut(next, codes[1..], lead, c);
      ReplaceCodeStep(s, codes[0].0, codes[0].1, c);
    }
  }

  /** A text holding no code of the table goes through the chain unchanged. */
  lemma {:induction false} ReplaceCodesIdentity(s: string, codes: seq<(char, string)>)
    requires forall i :: 0 <= i < |codes| ==> !Text.Occurs(s, ['&', codes[i].0])
    ensures ReplaceCodes(s, codes) == s
    decreases |codes|
  {
    if codes != [] {
      Text.ReplaceAbsent(s, ['&', codes[0].0], codes[0].1);
      assert forall i :: 0 <= i < |codes[1..]| ==> codes[1..][i] == codes[i + 1];
      ReplaceCodesIdentity(s, codes[1..]);
    }
  }

  /** Every tag of the legacy table starts with '<', which is no code, and holds no '&'. */
  lemma LegacyCodesWellFormed()
    ensures WellFormedTable(LegacyCodes, '<')
  {
    forall i | 0 <= i < |LegacyCodes|
      ensures |LegacyCodes[i].1| > 0 && LegacyCodes[i].1[0] == '<' && LegacyCodes[i].0 != '<' && '&' !in LegacyCodes[i].1
    {
      if i < 4 {
      } else if i < 8 {
      } else if i < 12 {
      } else if i < 16 {
      } else if i < 19 {
      } else {
      }
    }
  }

  /** No code appears in the legacy table twice. */
  lemma LegacyCodesDistinct()
    ensures forall i, j :: 0 <= i < j < |LegacyCodes| ==> LegacyCodes[i].0 != LegacyCodes[j].0
  {
    assert CodesAscending(LegacyCodes);
    AscendingCodesDistinct(LegacyCodes);
  }

  /** After parsing, none of the 22 legacy codes is left in the text. */
  lemma ParseMessageNoCodeLeft(message: string, i: int)
    requires 0 <= i < |LegacyCodes|
    ensures !Text.Occurs(ParseMessage(message), ['&', LegacyCodes[i].0])
  {
    LegacyCodesWellFormed();
    ReplaceCodesKeepsOut(message, LegacyCodes, '<', LegacyCodes[i].0);
  }

  /**
    A text with no '&', or whose '&' codes are all outside the table (an
    upper-case "&C", say), comes out of parsing as it went in.
   */
  lemma ParseMessageIdentity(message: string)
    requires forall i :: 0 <= i < |LegacyCodes| ==> !Text.Occurs(message, ['&', LegacyCodes[i].0])
    ensures ParseMessage(message) == message
  {
    ReplaceCodesIdentity(message, LegacyCodes);
  }

  /** A text without '&' holds no code at all, so parsing leaves it alone. */
  lemma ParseMessagePlain(message: string)
    requires '&' !in message
    ensures ParseMessage(message) == message
  {
    forall i | 0 <= i < |LegacyCodes| ensures !Text.Occurs(message, ['&', LegacyCodes[i].0]) {
      Text.OccursAfterPrefix(message, [], ['&', LegacyCodes[i].0]);
      assert message + [] == message;
    }
    ParseMessageIdentity(message);
  }

  /** sendMessage: nothing for an empty text, otherwise one message with the parsed text. */
  function SendMessage(message: string): (r: Option<ChatMessage>)
    ensures r.None? <==> message == ""
    ensures r.Some? ==> r.value == ChatMessage("", ParseMessage(message))
  {
    if message == "" then None else Some(ChatMessage("", ParseMessage(message)))
  }

  /**
    sendCooldownMessage: nothing (and no lookup) when cooldown messages are
    off; otherwise the "messages.cooldown" text with the "{time}" placeholder
    filled in, behind a clock icon.
   */
  function SendCooldownMessage(cm: ConfigManager, remainingTime: int): (r: Option<ChatMessage>)
    reads cm
    ensures r.None? <==> !cm.IsCooldownMessageEnabled()
    ensures r.Some? ==> r.value.icon == "\U{23F0} "
  {
    if !cm.IsCooldownMessageEnabled() then None
    else
      var cooldownMessage := cm.GetMessageWith("messages.cooldown", "{time}", Text.IntToString(remainingTime));
      Some(ChatMessage("\U{23F0} ", ParseMessage(cooldownMessage)))
  }

  /**
    getMessage wraps the placeholder in braces once more, so the token that
    is substituted is "{{time}}": a configured text using the single-brace
    "{time}" is sent with the placeholder left in place.
   */
  lemma CooldownTokenIsDoubleBraced(cm: ConfigManager, remainingTime: int)
    requires cm.IsCooldownMessageEnabled()
    requires !Text.Occurs(cm.GetMessage("messages.cooldown"), "{{time}}")
    ensures SendCooldownMessage(cm, remainingTime) ==
      Some(ChatMessage("\U{23F0} ", ParseMessage(cm.GetMessage("messages.cooldown"))))
  {
    assert "{" + "{time}" + "}" == "{{time}}";
    Text.ReplaceAbsent(cm.GetMessage("messages.cooldown"), "{{time}}", Text.IntToString(remainingTime));
  }

  /**
    A configured cooldown text holding "{{time}}" once has it replaced by the
    remaining seconds, and the rest of the text is sent as configured.
   */
  lemma CooldownTokenSubstituted(cm: ConfigManager, remainingTime: int, before: string, after: string)
    requires cm.IsCooldownMessageEnabled()
    requires cm.GetMessage("messages.cooldown") == before + "{{time}}" + after
    requires Text.NoMatchStartsIn(before, "{{time}}" + after, "{{time}}")
    requires !Text.Occurs(after, "{{time}}")
    ensures SendCooldownMessage(cm, remainingTime) ==
      Some(ChatMessage("\U{23F0} ", ParseMessage(before + Text.IntToString(remainingTime) + after)))
  {
    assert "{" + "{time}" + "}" == "{{time}}";
    Text.ReplaceOnce(before, after, "{{time}}", Text.IntToString(remainingTime));
  }

  /** sendPermissionDeniedMessage: always exactly one message, the parsed text for the key behind a cross icon. */
  function SendPermissionDeniedMessage(cm: ConfigManager, messageKey: string): (r: ChatMessage)
    reads cm
    ensures r.icon == "\U{274C} "
    ensures r.body == ParseMessage(cm.GetMessage(messageKey))
    ensures forall i :: 0 <= i < |LegacyCodes| ==> !Text.Occurs(r.body, ['&', LegacyCodes[i].0])
  {
    var body := ParseMessage(cm.GetMessage(messageKey));
    assert forall i :: 0 <= i < |LegacyCodes| ==> !Text.Occurs(body, ['&', LegacyCodes[i].0]) by {
      forall i | 0 <= i < |LegacyCodes| ensures !Text.Occurs(body, ['&', LegacyCodes[i].0]) {
        ParseMessageNoCodeLeft(cm.GetMessage(messageKey), i);
      }
    }
    ChatMessage("\U{274C} ", body)
  }
}
