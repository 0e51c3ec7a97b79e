/** The command grammar over the words of a line. */
module CliParser {
  import opened StringUtils

  datatype CommandType = Invalid | Set | Get | Del | ClearPersistence | Help | Exit

  datatype Command = Command(kind: CommandType, key: string, value: string, error: string) {
    predicate IsValid() {
      !kind.Invalid?
    }
  }

  function InvalidCommand(message: string): Command {
    Command(Invalid, "", "", message)
  }

  function Keyed(kind: CommandType, key: string): Command {
    Command(kind, key, "", "")
  }

  function SetCommand(key: string, value: string): Command {
    Command(Set, key, value, "")
  }

  /** The command that a line's words spell. */
  function Interpret(tokens: seq<string>): Command {
    if tokens == [] then InvalidCommand("empty command")
    else
      var verb := Upper(tokens[0]);
      if verb == "SET" then
        if |tokens| < 3 then InvalidCommand("usage: SET <key> <value>")
        else SetCommand(tokens[1], Join(tokens[2..]))
      else if verb == "GET" then
        if |tokens| != 2 then InvalidCommand("usage: GET <key>") else Keyed(Get, tokens[1])
      else if verb == "DEL" || verb == "DELETE" then
        if |tokens| != 2 then InvalidCommand("usage: DELETE <key>") else Keyed(Del, tokens[1])
      else if verb == "CLEAR_PERSISTENCE" || verb == "CLEAR-PERSISTENCE" then
        if |tokens| != 1 then InvalidCommand("usage: CLEAR PERSISTENCE") else Keyed(ClearPersistence, "")
      else if verb == "CLEAR" then
        if |tokens| != 2 || Upper(tokens[1]) != "PERSISTENCE" then InvalidCommand("usage: CLEAR PERSISTENCE")
        else Keyed(ClearPersistence, "")
      else if verb == "HELP" then Keyed(Help, "")
      else if verb == "EXIT" || verb == "QUIT" then Keyed(Exit, "")
      else InvalidCommand("unknown command")
  }

  function Meaning(line: string): Command {
    Interpret(Words(line))
  }

  method JoinTokens(input: string, tokens: seq<View>, beginIndex: nat) returns (joined: string)
    ensures joined == if beginIndex <= |tokens| then Join(Texts(input, tokens)[beginIndex..]) else ""
  {
    TextsAt(input, tokens);
    ghost var texts := Texts(input, tokens);
    joined := "";
    assert beginIndex <= |tokens| ==> Join(texts[beginIndex..beginIndex]) == "";
    hide Join, Texts, Text;
    var index := beginIndex;
    while index < |tokens|
      invariant if beginIndex <= |tokens|
        then beginIndex <= index <= |tokens| && joined == Join(texts[beginIndex..index])
        else index == beginIndex && joined == ""
    {
      JoinUpTo(texts, beginIndex, index);
      if index > beginIndex {
        joined := joined + " ";
      }
      joined := joined + Text(input, tokens[index]);
      index := index + 1;
    }
    assert beginIndex <= |tokens| ==> texts[beginIndex..|tokens|] == texts[beginIndex..];
  }

  lemma {:induction false} TextsAt(s: string, views: seq<View>)
    ensures |Texts(s, views)| == |views|
    ensures forall i | 0 <= i < |views| :: Texts(s, views)[i] == Text(s, views[i])
  {
    hide Text;
    if views == [] {
    } else {
      TextsAt(s, views[..|views| - 1]);
    }
  }

  lemma {:induction false} JoinSnoc(words: seq<string>, w: string)
    ensures Join(words + [w]) == if words == [] then w else Join(words) + " " + w
  {
    if |words| <= 1 {
    } else {
      JoinSnoc(words[1..], w);
      assert (words + [w])[1..] == words[1..] + [w];
    }
  }

  lemma JoinUpTo(words: seq<string>, begin: nat, index: nat)
    requires begin <= index < |words|
    ensures Join(words[begin..index + 1]) ==
            (if begin == index then "" else Join(words[begin..index]) + " ") + words[index]
  {
    assert words[begin..index + 1] == words[begin..index] + [words[index]];
    hide Join;
    JoinSnoc(words[begin..index], words[index]);
    assert "" + words[index] == words[index];
  }

  /** Trims, splits and dispatches. The trimmed line of a nonempty command always has a first
      token, and the result depends on the words of the line alone. */
  method Parse(input: string) returns (command: Command)
    ensures command == Meaning(input)
  {
    var trimmed := Trim(input);
    TrimKeepsWords(input, trimmed);
    if trimmed == "" {
      return InvalidCommand("empty command");
    }
    var tokens := SplitWhitespaceView(trimmed);
    TextsAt(trimmed, tokens);
    var verb := ToUpper(Text(trimmed, tokens[0]));
    if verb == "SET" {
      if |tokens| < 3 {
        return InvalidCommand("usage: SET <key> <value>");
      }
      var value := JoinTokens(trimmed, tokens, 2);
      return SetCommand(Text(trimmed, tokens[1]), value);
    }
    if verb == "GET" {
      if |tokens| != 2 {
        return InvalidCommand("usage: GET <key>");
      }
      return Keyed(Get, Text(trimmed, tokens[1]));
    }
    if verb == "DEL" || verb == "DELETE" {
      if |tokens| != 2 {
        return InvalidCommand("usage: DELETE <key>");
      }
      return Keyed(Del, Text(trimmed, tokens[1]));
    }
    if verb == "CLEAR_PERSISTENCE" || verb == "CLEAR-PERSISTENCE" {
      if |tokens| != 1 {
        return InvalidCommand("usage: CLEAR PERSISTENCE");
      }
      return Keyed(ClearPersistence, "");
    }
    if verb == "CLEAR" {
      if |tokens| != 2 {
        return InvalidCommand("usage: CLEAR PERSISTENCE");
      }
      var noun := ToUpper(Text(trimmed, tokens[1]));
      if noun != "PERSISTENCE" {
        return InvalidCommand("usage: CLEAR PERSISTENCE");
      }
      return Keyed(ClearPersistence, "");
    }
    if verb == "HELP" {
      return Keyed(Help, "");
    }
    if verb == "EXIT" || verb == "QUIT" {
      return Keyed(Exit, "");
    }
    return InvalidCommand("unknown command");
  }

  // ---------- Which lines mean what ----------

  lemma Spellings(word: string)
    ensures Upper(word) == "SET" <==> Spells(word, "SET")
    ensures Upper(word) == "GET" <==> Spells(word, "GET")
    ensures Upper(word) == "DEL" <==> Spells(word, "DEL")
    ensures Upper(word) == "DELETE" <==> Spells(word, "DELETE")
    ensures Upper(word) == "CLEAR_PERSISTENCE" <==> Spells(word, "CLEAR_PERSISTENCE")
    ensures Upper(word) == "CLEAR-PERSISTENCE" <==> Spells(word, "CLEAR-PERSISTENCE")
    ensures Upper(word) == "CLEAR" <==> Spells(word, "CLEAR")
    ensures Upper(word) == "PERSISTENCE" <==> Spells(word, "PERSISTENCE")
    ensures Upper(word) == "HELP" <==> Spells(word, "HELP")
    ensures Upper(word) == "EXIT" <==> Spells(word, "EXIT")
    ensures Upper(word) == "QUIT" <==> Spells(word, "QUIT")
  {
    hide Upper, Spells;
    UpperIffSpells(word, "SET");
    UpperIffSpells(word, "GET");
    UpperIffSpells(word, "DEL");
    UpperIffSpells(word, "DELETE");
    UpperIffSpells(word, "CLEAR_PERSISTENCE");
    UpperIffSpells(word, "CLEAR-PERSISTENCE");
    UpperIffSpells(word, "CLEAR");
    UpperIffSpells(word, "PERSISTENCE");
    UpperIffSpells(word, "HELP");
    UpperIffSpells(word, "EXIT");
    UpperIffSpells(word, "QUIT");
  }

  /** The first word of the line is one of the two names, in any casing. */
  ghost predicate Starts(words: seq<string>, name: string, alias: string) {
    words != [] && (Spells(words[0], name) || Spells(words[0], alias))
  }

  /** Exactly which words give each command, with what key and value. */
  lemma CommandIff(line: string)
    ensures var w, c := Words(line), Meaning(line);
      && (c.kind.Set? <==> |w| >= 3 && Spells(w[0], "SET"))
      && (c.kind.Get? <==> |w| == 2 && Spells(w[0], "GET"))
      && (c.kind.Del? <==> |w| == 2 && Starts(w, "DEL", "DELETE"))
      && (c.kind.ClearPersistence? <==>
          || (|w| == 1 && Starts(w, "CLEAR_PERSISTENCE", "CLEAR-PERSISTENCE"))
          || (|w| == 2 && Spells(w[0], "CLEAR") && Spells(w[1], "PERSISTENCE")))
      && (c.kind.Help? <==> Starts(w, "HELP", "HELP"))
      && (c.kind.Exit? <==> Starts(w, "EXIT", "QUIT"))
      && (!c.kind.Invalid? ==> c.error == "")
      && (c.kind.Set? ==> c.key == w[1] && c.value == Join(w[2..]))
      && (c.kind.Get? || c.kind.Del? ==> c.key == w[1] && c.value == "")
      && (c.kind.ClearPersistence? || c.kind.Help? || c.kind.Exit? ==> c.key == "" && c.value == "")
  {
    var w := Words(line);
    hide Words, Upper, Join, Spells;
    if w != [] {
      Spellings(w[0]);
    }
    if |w| == 2 {
      Spellings(w[1]);
    }
  }

  /** Exactly which words every refusal is given for; it carries no key and no value. */
  lemma RefusalIff(line: string)
    ensures var w, c := Words(line), Meaning(line);
      c.kind.Invalid? ==>
        && c.key == c.value == ""
        && (c.error == "empty command" <==> w == [])
        && (c.error == "usage: SET <key> <value>" <==> Starts(w, "SET", "SET"))
        && (c.error == "usage: GET <key>" <==> Starts(w, "GET", "GET"))
        && (c.error == "usage: DELETE <key>" <==> Starts(w, "DEL", "DELETE"))
        && (c.error == "usage: CLEAR PERSISTENCE" <==>
            Starts(w, "CLEAR", "CLEAR_PERSISTENCE") || Starts(w, "CLEAR-PERSISTENCE", "CLEAR-PERSISTENCE"))
        && (c.error in ["empty command", "usage: SET <key> <value>", "usage: GET <key>", "usage: DELETE <key>",
                        "usage: CLEAR PERSISTENCE", "unknown command"])
  {
    var w := Words(line);
    hide Words, Upper, Join, Spells;
    if w != [] {
      Spellings(w[0]);
    }
  }

  // ---------- Laws ----------

  /** Parsing sees a line only up to whitespace normalisation. */
  lemma ParseNormalised(line: string)
    ensures Meaning(Join(Words(line))) == Meaning(line)
  {
    Normalising(line);
  }

  /** A verb in any casing is still one word. */
  lemma VerbIsWord(verb: string, name: string)
    requires Spells(verb, name) && IsWord(name)
    ensures IsWord(verb)
  {
    forall i | 0 <= i < |verb| ensures !IsSpace(verb[i]) {
      assert SameLetter(verb[i], name[i]) && !IsSpace(name[i]);
    }
  }

  /** The words of a printed command: a verb, a key and any text after them. */
  lemma PrintedWords(verb: string, key: string, text: string)
    requires IsWord(verb) && IsWord(key)
    ensures Words(verb + (" " + (key + (" " + text)))) == [verb] + ([key] + Words(text))
  {
    var rest := key + (" " + text);
    ThenSpace(key, text);
    hide Words, IsWord;
    ThenSpace(verb, rest);
  }

  lemma PrintedKey(verb: string, key: string)
    requires IsWord(verb) && IsWord(key)
    ensures Words(verb + (" " + key)) == [verb, key]
  {
    WordThen(key, "");
    assert key + "" == key && Words("") == [];
    hide Words, IsWord;
    ThenSpace(verb, key);
  }

  /** Printing then parsing a GET or DELETE is the identity, for any casing of the verb. */
  lemma KeyedRoundTrip(name: string, verb: string, key: string)
    requires IsWord(key) && name in ["GET", "DEL", "DELETE"] && Spells(verb, name)
    ensures Meaning(verb + (" " + key)) == Keyed(if name == "GET" then Get else Del, key)
  {
    hide Words, Upper, Spells;
    VerbIsWord(verb, name);
    Spellings(verb);
    PrintedKey(verb, key);
  }

  lemma SetOfWords(verb: string, key: string, words: seq<string>)
    requires Upper(verb) == "SET" && words != []
    ensures Interpret([verb] + ([key] + words)) == SetCommand(key, Join(words))
  {
    hide Upper, Join;
    assert ([verb] + ([key] + words))[2..] == words;
  }

  /** A SET keeps its key whatever the value text, and keeps the value exactly when the text is
      already its words with single spaces between. */
  lemma SetRoundTrip(verb: string, key: string, text: string)
    requires IsWord(key) && Spells(verb, "SET") && Words(text) != []
    ensures var line := verb + (" " + (key + (" " + text)));
      && Meaning(line) == SetCommand(key, Join(Words(text)))
      && (Meaning(line) == SetCommand(key, text) <==> text == Join(Words(text)))
  {
    assert IsWord("SET");
    hide Words, Upper, Spells, IsWord, Join, Interpret;
    VerbIsWord(verb, "SET");
    Spellings(verb);
    PrintedWords(verb, key, text);
    SetOfWords(verb, key, Words(text));
  }

  lemma ParsedSet(line: string, key: string, value: string)
    requires Meaning(line) == SetCommand(key, value)
    ensures IsWord(key) && Words(value) != [] && value == Join(Words(value))
  {
    var tokens := Words(line);
    WordsAreWords(line);
    hide Words, Join, IsWord, Upper;
    assert |tokens| >= 3 && key == tokens[1] && value == Join(tokens[2..]);
    assert tokens[1] in tokens && forall w | w in tokens[2..] :: w in tokens;
    WordsOfJoin(tokens[2..]);
  }

  /** Exactly which SETs a command line can express. */
  lemma ExpressibleSets(key: string, value: string)
    ensures (exists line :: Meaning(line) == SetCommand(key, value)) <==>
            IsWord(key) && Words(value) != [] && value == Join(Words(value))
  {
    hide Words, Join, IsWord, Interpret, Meaning;
    if IsWord(key) && Words(value) != [] && value == Join(Words(value)) {
      assert Spells("SET", "SET");
      SetRoundTrip("SET", key, value);
    }
    if exists line :: Meaning(line) == SetCommand(key, value) {
      var line :| Meaning(line) == SetCommand(key, value);
      ParsedSet(line, key, value);
    }
  }

  /** The canonical line for a command. */
  function Print(c: Command): string {
    match c.kind
    case Set => "SET" + (" " + (c.key + (" " + c.value)))
    case Get => "GET" + (" " + c.key)
    case Del => "DELETE" + (" " + c.key)
    case ClearPersistence => "CLEAR" + (" " + "PERSISTENCE")
    case Help => "HELP"
    case Exit => "EXIT"
    case Invalid => ""
  }

  lemma ClearLine()
    ensures Meaning("CLEAR" + (" " + "PERSISTENCE")) == Keyed(ClearPersistence, "")
  {
    PrintedKey("CLEAR", "PERSISTENCE");
    assert Upper("CLEAR") == "CLEAR" && Upper("PERSISTENCE") == "PERSISTENCE";
    hide Words, Upper;
  }

  lemma HelpLine()
    ensures Meaning("HELP") == Keyed(Help, "")
  {
    WordAlone("HELP");
    assert Upper("HELP") == "HELP";
    hide Words, Upper;
  }

  lemma ExitLine()
    ensures Meaning("EXIT") == Keyed(Exit, "")
  {
    WordAlone("EXIT");
    assert Upper("EXIT") == "EXIT";
    hide Words, Upper;
  }

  /** A parsed command carries nothing its kind does not use. */
  lemma ParsedShape(line: string)
    ensures var c := Meaning(line);
      match c.kind
      case Invalid => c == InvalidCommand(c.error)
      case Set => c == SetCommand(c.key, c.value)
      case Get => IsWord(c.key) && c == Keyed(Get, c.key)
      case Del => IsWord(c.key) && c == Keyed(Del, c.key)
      case kind => c == Keyed(kind, "")
  {
    var tokens := Words(line);
    WordsAreWords(line);
    hide Words, Join, IsWord, Upper;
    assert |tokens| > 1 ==> tokens[1] in tokens;
  }

  /** Every valid line means the same as the canonical line of its command: parsing then printing
      is a normal form. */
  lemma PrintIsCanonical(line: string)
    requires Meaning(line).IsValid()
    ensures Meaning(Print(Meaning(line))) == Meaning(line)
  {
    var c := Meaning(line);
    assert Spells("SET", "SET") && Spells("GET", "GET") && Spells("DELETE", "DELETE");
    hide Meaning, Words, Join, Spells, IsWord;
    ParsedShape(line);
    match c.kind
    case Set =>
      ParsedSet(line, c.key, c.value);
      SetRoundTrip("SET", c.key, c.value);
    case Get => KeyedRoundTrip("GET", "GET", c.key);
    case Del => KeyedRoundTrip("DELETE", "DELETE", c.key);
    case ClearPersistence => ClearLine();
    case Help => HelpLine();
    case Exit => ExitLine();
  }
}
