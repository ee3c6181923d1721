/**
 * Quoting for the device shell.
 *
 * The shell side is token recognition after sections 2.2.1, 2.2.2 and 2.3 of the Shell Command Language
 * of IEEE Std 1003.1, restricted to what a simple command needs: any other character that could mean
 * something to a shell while unquoted makes the line unrecognised.
 */
module ShellCommand {
  import opened Common
  import opened Text

  const PACKAGE := "com.adbcontrol.companion"
  const COMMAND_ACTION := "com.adbcontrol.companion.EXECUTE_COMMAND"
  const COMMAND_RECEIVER := PACKAGE + "/.commands.CompanionCommandReceiver"
  const CONFIGURE_ACTION := "com.adbcontrol.companion.CONFIGURE_CONNECTION"
  const CONFIGURE_RECEIVER := PACKAGE + "/.quic.CompanionConnectionReceiver"

  // ---------------------------------------------------------------- the shell

  /** Characters without any meaning to the shell. */
  predicate IsPlain(c: char) {
    'a' <= c <= 'z' || 'A' <= c <= 'Z' || IsDigit(c) || c == '-' || c == '_' || c == '.' || c == '/'
  }

  predicate IsPlainWord(w: string) {
    w != "" && forall c | c in w :: IsPlain(c)
  }

  function Extended(word: Option<string>, c: char): Option<string> {
    Some(if word.Some? then word.value + [c] else [c])
  }

  /** word: the word being recognised, if one has begun; words: those before it. */
  function Unquoted(s: string, word: Option<string>, words: seq<string>): Option<seq<string>>
    decreases |s|
  {
    if s == "" then Some(if word.Some? then words + [word.value] else words)
    else if s[0] == ' ' || s[0] == '\t' then Unquoted(s[1..], None, if word.Some? then words + [word.value] else words)
    else if s[0] == '\'' then Quoted(s[1..], if word.Some? then word.value else "", words)
    else if s[0] == '\\' then
      if |s| == 1 then None
      else if s[1] == '\n' then Unquoted(s[2..], word, words)
      else Unquoted(s[2..], Extended(word, s[1]), words)
    else if IsPlain(s[0]) then Unquoted(s[1..], Extended(word, s[0]), words)
    else None
  }

  function Quoted(s: string, word: string, words: seq<string>): Option<seq<string>>
    decreases |s|
  {
    if s == "" then None
    else if s[0] == '\'' then Unquoted(s[1..], Some(word), words)
    else Quoted(s[1..], word + [s[0]], words)
  }

  /** The words of a command line, or None if it is unterminated or needs more of the shell than this. */
  function Tokenize(line: string): Option<seq<string>> {
    Unquoted(line, None, [])
  }

  // ---------------------------------------------------------------- the quoting

  /** Every occurrence of from replaced. */
  function ReplaceAll(s: string, from: char, to: string): string {
    if s == "" then ""
    else (if s[0] == from then to else [s[0]]) + ReplaceAll(s[1..], from, to)
  }

  function ShellQuote(value: string): string {
    "'" + ReplaceAll(value, '\'', "'\\''") + "'"
  }

  function Extras(extras: seq<(string, string)>): string {
    if extras == [] then ""
    else " --es " + extras[0].0 + " " + ShellQuote(extras[0].1) + Extras(extras[1..])
  }

  /** A broadcast with string extras, as the server sends it through the device shell. */
  function Broadcast(action: string, receiver: string, extras: seq<(string, string)>): string {
    "am broadcast --receiver-foreground" + " -a " + ShellQuote(action) + " -n " + ShellQuote(receiver) + Extras(extras)
  }

  function CompanionCommand(
      capability: string, operation: string, requestId: string, args: string): Result<string, string> {
    if IsBlank(capability) || IsBlank(operation) then Failure("COMPANION_COMMAND_INVALID")
    else Success(Broadcast(
      COMMAND_ACTION, COMMAND_RECEIVER,
      [("requestId", requestId), ("capabilityId", capability), ("operation", operation), ("argsJson", args)]))
  }

  function ConfigureCommand(endpoint: string, device: string, serverName: string, certificate: string): string {
    Broadcast(
      CONFIGURE_ACTION, CONFIGURE_RECEIVER,
      [("endpoint", endpoint), ("deviceId", device), ("serverName", serverName), ("certificateDerBase64", certificate)])
  }

  // ---------------------------------------------------------------- what the shell takes unquoted

  /** Letters, digits, and four signs, by code point. */
  lemma PlainIff(c: char)
    ensures var code := c as int;
            IsPlain(c) <==>
              97 <= code <= 122 || 65 <= code <= 90 || 48 <= code <= 57 || code == 45 || code == 95 || code == 46
              || code == 47
  {
    assert 'a' as int == 97 && 'z' as int == 122 && 'A' as int == 65 && 'Z' as int == 90 && '0' as int == 48;
    assert '9' as int == 57 && '-' as int == 45 && '_' as int == 95 && '.' as int == 46 && '/' as int == 47;
    assert c == (c as int) as char;
  }

  /** Every other character, unquoted, makes the line unrecognised; but a backslash takes any as it is. */
  lemma SpecialNeedsQuoting(c: char, tail: string, word: Option<string>, words: seq<string>)
    requires !IsPlain(c) && c as int !in {32, 9, 39, 92}
    ensures Unquoted([c] + tail, word, words) == None
    ensures Unquoted("\\" + [c] + tail, word, words)
            == Unquoted(tail, if c == '\n' then word else Some((if word.Some? then word.value else "") + [c]), words)
  {
    var escaped := "\\" + [c] + tail;
    assert escaped[0] == '\\' && escaped[1] == c && escaped[2..] == tail;
    assert "" + [c] == [c];
    assert ([c] + tail)[0] == c;
  }

  // ---------------------------------------------------------------- quoting is undone by the shell

  lemma QuoteInQuoted(tail: string, word: string, words: seq<string>)
    ensures Quoted("'\\''" + tail, word, words) == Quoted(tail, word + "'", words)
  {
    var s := "'\\''" + tail;
    assert s[1..] == "\\''" + tail;
    assert s[1..][2..] == "'" + tail;
    assert ("'" + tail)[1..] == tail;
    assert Quoted(s, word, words) == Unquoted("\\''" + tail, Some(word), words);
    assert Unquoted("\\''" + tail, Some(word), words) == Unquoted("'" + tail, Some(word + "'"), words);
  }

  lemma {:induction false} QuotedBody(value: string, tail: string, word: string, words: seq<string>)
    ensures Quoted(ReplaceAll(value, '\'', "'\\''") + "'" + tail, word, words)
        == Unquoted(tail, Some(word + value), words)
    decreases value
  {
    hide Unquoted;
    if value == "" {
      assert "" + "'" + tail == "'" + tail;
      assert ("'" + tail)[1..] == tail;
      assert word + value == word;
    } else {
      var further := ReplaceAll(value[1..], '\'', "'\\''") + "'" + tail;
      var first := [value[0]];
      QuotedBody(value[1..], tail, word + first, words);
      assert word + first + value[1..] == word + value;
      if value[0] == '\'' {
        QuoteInQuoted(further, word, words);
        assert ReplaceAll(value, '\'', "'\\''") + "'" + tail == "'\\''" + further;
        assert "'" == first;
      } else {
        assert ReplaceAll(value, '\'', "'\\''") + "'" + tail == first + further;
        assert (first + further)[1..] == further;
      }
    }
  }

  /** A quoted value continues the word it stands in, and means itself. */
  lemma QuotedValue(value: string, tail: string, words: seq<string>)
    ensures Unquoted(ShellQuote(value) + tail, None, words) == Unquoted(tail, Some(value), words)
  {
    hide Quoted;
    var body := ReplaceAll(value, '\'', "'\\''") + "'" + tail;
    assert ShellQuote(value) + tail == "'" + body;
    assert ("'" + body)[1..] == body;
    QuotedBody(value, tail, "", words);
    assert "" + value == value;
  }

  /** The shell reads a quoted value as the one word it was, whatever characters it holds. */
  lemma QuoteIsOneWord(value: string)
    ensures Tokenize(ShellQuote(value)) == Some([value])
  {
    QuotedValue(value, "", []);
    assert ShellQuote(value) + "" == ShellQuote(value);
    NothingLeft(value, []);
    assert [] + [value] + [] == [value];
  }

  lemma {:induction false} PlainLetters(w: string, tail: string, word: string, words: seq<string>)
    requires forall c | c in w :: IsPlain(c)
    ensures Unquoted(w + tail, Some(word), words) == Unquoted(tail, Some(word + w), words)
    decreases w
  {
    if w == "" {
      assert w + tail == tail && word + w == word;
    } else {
      assert w[0] in w && (forall c | c in w[1..] :: c in w);
      assert (w + tail)[1..] == w[1..] + tail;
      assert word + [w[0]] + w[1..] == word + w;
      PlainLetters(w[1..], tail, word + [w[0]], words);
    }
  }

  lemma Separated(tail: string, word: string, words: seq<string>)
    ensures Unquoted(" " + tail, Some(word), words) == Unquoted(tail, None, words + [word])
  {
    assert (" " + tail)[1..] == tail;
  }

  lemma PlainWord(w: string, tail: string, words: seq<string>)
    requires IsPlainWord(w)
    ensures Unquoted(w + " " + tail, None, words) == Unquoted(tail, None, words + [w])
  {
    hide Quoted;
    assert w[0] in w && (forall c | c in w[1..] :: c in w);
    assert (w + " " + tail)[1..] == w[1..] + (" " + tail);
    assert [w[0]] + w[1..] == w;
    PlainLetters(w[1..], " " + tail, [w[0]], words);
    Separated(tail, w, words);
  }

  function ExtraWords(extras: seq<(string, string)>): seq<string> {
    if extras == [] then [] else ["--es", extras[0].0, extras[0].1] + ExtraWords(extras[1..])
  }

  lemma {:induction false} ExtrasTokens(extras: seq<(string, string)>, word: string, words: seq<string>)
    requires forall i | 0 <= i < |extras| :: IsPlainWord(extras[i].0)
    ensures Unquoted(Extras(extras), Some(word), words) == Some(words + [word] + ExtraWords(extras))
    decreases extras
  {
    hide Unquoted, ShellQuote, IsPlainWord;
    if extras == [] {
      NothingLeft(word, words);
    } else {
      var name, value, further := extras[0].0, extras[0].1, Extras(extras[1..]);
      assert Extras(extras) == " " + ("--es" + " " + (name + " " + (ShellQuote(value) + further)));
      Separated("--es" + " " + (name + " " + (ShellQuote(value) + further)), word, words);
      ExtraFlagIsPlain();
      PlainWord("--es", name + " " + (ShellQuote(value) + further), words + [word]);
      PlainWord(name, ShellQuote(value) + further, words + [word] + ["--es"]);
      QuotedValue(value, further, words + [word] + ["--es"] + [name]);
      ExtrasTokens(extras[1..], value, words + [word] + ["--es"] + [name]);
      assert words + [word] + ["--es"] + [name] + [value] + ExtraWords(extras[1..])
          == words + [word] + (["--es", name, value] + ExtraWords(extras[1..]));
    }
  }

  lemma NothingLeft(word: string, words: seq<string>)
    ensures Unquoted("", Some(word), words) == Some(words + [word] + [])
  {
    assert words + [word] + [] == words + [word];
  }

  lemma ExtraFlagIsPlain()
    ensures IsPlainWord("--es") && IsPlainWord("-a") && IsPlainWord("-n")
    ensures IsPlainWord("am") && IsPlainWord("broadcast") && IsPlainWord("--receiver-foreground")
  {
  }

  /** The command line, split at its separators. */
  lemma BroadcastSpelled(action: string, receiver: string, extras: seq<(string, string)>)
    ensures Broadcast(action, receiver, extras) ==
              "am" + " " + ("broadcast" + " " + ("--receiver-foreground" + " " + ("-a" + " " +
                (ShellQuote(action) + (" " + ("-n" + " " + (ShellQuote(receiver) + Extras(extras))))))))
  {
    hide ShellQuote, Extras;
    assert "am broadcast --receiver-foreground" == "am" + " " + ("broadcast" + " " + "--receiver-foreground");
    assert " -a " == " " + "-a" + " ";
    assert " -n " == " " + ("-n" + " ");
  }

  /** A broadcast reaches the activity manager as exactly the intended argument list, for all values. */
  lemma BroadcastTokens(action: string, receiver: string, extras: seq<(string, string)>)
    requires forall i | 0 <= i < |extras| :: IsPlainWord(extras[i].0)
    ensures Tokenize(Broadcast(action, receiver, extras))
         == Some(["am", "broadcast", "--receiver-foreground", "-a", action, "-n", receiver] + ExtraWords(extras))
  {
    hide Unquoted, Quoted, ShellQuote, IsPlainWord, Extras, Broadcast, ExtraWords;
    ExtraFlagIsPlain();
    BroadcastSpelled(action, receiver, extras);
    var fromReceiver := ShellQuote(receiver) + Extras(extras);
    var afterAction := "-n" + " " + fromReceiver;
    var fromAction := ShellQuote(action) + (" " + afterAction);
    var options := "-a" + " " + fromAction;
    var flags := "--receiver-foreground" + " " + options;
    var w1 := ["am"];
    var w2 := w1 + ["broadcast"];
    var w3 := w2 + ["--receiver-foreground"];
    var w4 := w3 + ["-a"];
    var w5 := w4 + [action];
    var w6 := w5 + ["-n"];
    PlainWord("am", "broadcast" + " " + flags, []);
    assert [] + ["am"] == w1;
    PlainWord("broadcast", flags, w1);
    PlainWord("--receiver-foreground", options, w2);
    PlainWord("-a", fromAction, w3);
    QuotedValue(action, " " + afterAction, w4);
    Separated(afterAction, action, w4);
    PlainWord("-n", fromReceiver, w5);
    QuotedValue(receiver, Extras(extras), w6);
    ExtrasTokens(extras, receiver, w6);
    SevenWords(action, receiver);
  }

  lemma SevenWords(action: string, receiver: string)
    ensures ["am"] + ["broadcast"] + ["--receiver-foreground"] + ["-a"] + [action] + ["-n"] + [receiver]
         == ["am", "broadcast", "--receiver-foreground", "-a", action, "-n", receiver]
  {
  }

  lemma FourExtrasTokens(
      a: string, r: string, n0: string, v0: string, n1: string, v1: string, n2: string, v2: string, n3: string,
      v3: string)
    requires IsPlainWord(n0) && IsPlainWord(n1) && IsPlainWord(n2) && IsPlainWord(n3)
    ensures Tokenize(Broadcast(a, r, [(n0, v0), (n1, v1), (n2, v2), (n3, v3)])) == Some(
              ["am", "broadcast", "--receiver-foreground", "-a", a, "-n", r,
               "--es", n0, v0, "--es", n1, v1, "--es", n2, v2, "--es", n3, v3])
  {
    hide Tokenize, Broadcast, IsPlainWord, ExtraWords;
    var extras := [(n0, v0), (n1, v1), (n2, v2), (n3, v3)];
    BroadcastTokens(a, r, extras);
    FourExtras(extras);
    Joined(a, r, n0, v0, n1, v1, n2, v2, n3, v3);
  }

  /** A command is refused exactly for a blank capability or operation; otherwise its arguments arrive as given. */
  lemma CommandArrives(capability: string, operation: string, requestId: string, args: string)
    ensures var command := CompanionCommand(capability, operation, requestId, args);
            && (command.Failure? <==> IsBlank(capability) || IsBlank(operation))
            && (command.Failure? ==> command.error == "COMPANION_COMMAND_INVALID")
            && (command.Success? ==> Tokenize(command.value) == Some(
                  ["am", "broadcast", "--receiver-foreground", "-a", COMMAND_ACTION, "-n", COMMAND_RECEIVER,
                   "--es", "requestId", requestId, "--es", "capabilityId", capability,
                   "--es", "operation", operation, "--es", "argsJson", args]))
  {
    hide Tokenize, Broadcast, IsBlank, IsPlainWord;
    CommandNamesArePlain();
    FourExtrasTokens(
      COMMAND_ACTION, COMMAND_RECEIVER,
      "requestId", requestId, "capabilityId", capability, "operation", operation, "argsJson", args);
  }

  /** The same holds for the command that hands a device its Core endpoint and certificate. */
  lemma ConfigurationArrives(endpoint: string, device: string, serverName: string, certificate: string)
    ensures Tokenize(ConfigureCommand(endpoint, device, serverName, certificate)) == Some(
              ["am", "broadcast", "--receiver-foreground", "-a", CONFIGURE_ACTION, "-n", CONFIGURE_RECEIVER,
               "--es", "endpoint", endpoint, "--es", "deviceId", device,
               "--es", "serverName", serverName, "--es", "certificateDerBase64", certificate])
  {
    hide Tokenize, Broadcast, IsPlainWord;
    ConfigurationNamesArePlain();
    FourExtrasTokens(
      CONFIGURE_ACTION, CONFIGURE_RECEIVER,
      "endpoint", endpoint, "deviceId", device, "serverName", serverName, "certificateDerBase64", certificate);
  }

  /** The action and the receiver of each of the two broadcasts, spelled out. */
  lemma ReceiversSpelled()
    ensures COMMAND_ACTION == "com.adbcontrol.companion" + ".EXECUTE_COMMAND"
    ensures COMMAND_RECEIVER == "com.adbcontrol.companion" + "/.commands.CompanionCommandReceiver"
    ensures CONFIGURE_ACTION == "com.adbcontrol.companion" + ".CONFIGURE_CONNECTION"
    ensures CONFIGURE_RECEIVER == "com.adbcontrol.companion" + "/.quic.CompanionConnectionReceiver"
  {
  }

  lemma CommandNamesArePlain()
    ensures IsPlainWord("requestId") && IsPlainWord("capabilityId")
    ensures IsPlainWord("operation") && IsPlainWord("argsJson")
  {
  }

  lemma ConfigurationNamesArePlain()
    ensures IsPlainWord("endpoint") && IsPlainWord("deviceId")
    ensures IsPlainWord("serverName") && IsPlainWord("certificateDerBase64")
  {
  }

  lemma Joined(
      a: string, r: string, n0: string, v0: string, n1: string, v1: string, n2: string, v2: string, n3: string,
      v3: string)
    ensures ["am", "broadcast", "--receiver-foreground", "-a", a, "-n", r]
              + ["--es", n0, v0, "--es", n1, v1, "--es", n2, v2, "--es", n3, v3]
         == ["am", "broadcast", "--receiver-foreground", "-a", a, "-n", r,
             "--es", n0, v0, "--es", n1, v1, "--es", n2, v2, "--es", n3, v3]
  {
  }

  lemma FourExtras(e: seq<(string, string)>)
    requires |e| == 4
    ensures ExtraWords(e) ==
              ["--es", e[0].0, e[0].1, "--es", e[1].0, e[1].1, "--es", e[2].0, e[2].1, "--es", e[3].0, e[3].1]
  {
    assert ExtraWords(e[3..]) == ["--es", e[3].0, e[3].1];
    assert ExtraWords(e[2..]) == ["--es", e[2].0, e[2].1] + ExtraWords(e[3..]) by { assert e[2..][1..] == e[3..]; }
    assert ExtraWords(e[1..]) == ["--es", e[1].0, e[1].1] + ExtraWords(e[2..]) by { assert e[1..][1..] == e[2..]; }
  }
}
