/** Command parsing (Command.java): the registry of command factories, keyed
    by game class and normalised command name, and `parseCommand`, which looks
    up the first word of a command line and hands the factory the rest. */
module Commands {
  import opened Wrappers
  import Text

  /** A game class (`Class<? extends Game>`), by its name. */
  type GameClass = string

  /** A registered `CommandFactory`, by an opaque handle. */
  type FactoryId = nat

  /** The registry's key: the game class and the command name. */
  datatype Key = Key(game: GameClass, name: string)

  /** What a factory's `buildCommand(game, tokens)` is asked to build: the
      factory, the game class and the argument tokens it is given. */
  datatype Command = Built(factory: FactoryId, game: GameClass, args: seq<string>)

  /** `remove(0)` on an empty list, or no factory for the normalised name. */
  datatype ParseError = IndexOutOfBounds | NoFactoryFound(commandName: string)

  /** The text of `NoFactoryFoundException`, which quotes the name. */
  function NotFoundMessage(commandName: string): (m: string)
    ensures |m| == |commandName| + 33 && m[21..21 + |commandName|] == commandName
  {
    "Command Factory for '" + commandName + "' not found!"
  }

  /** Command names are upper-cased, then trimmed. */
  function Normalize(name: string): string
  {
    Text.Trim(Text.ToUpper(name))
  }

  /** What `parseCommand` makes of the tokens of a command line. */
  function ParseTokens(factories: map<Key, FactoryId>, game: GameClass, tokens: seq<string>): (r: Result<Command, ParseError>)
    ensures r == Failure(IndexOutOfBounds) <==> tokens == []
    ensures tokens != [] ==> (r.Success? <==> Key(game, Normalize(tokens[0])) in factories)
    ensures r.Success? ==> r.value.game == game && r.value.args == tokens[1..]
    ensures r.Failure? && tokens != [] ==> r.error == NoFactoryFound(Normalize(tokens[0]))
  {
    if tokens == [] then Failure(IndexOutOfBounds)
    else
      var key := Key(game, Normalize(tokens[0]));
      if key in factories then Success(Built(factories[key], game, tokens[1..]))
      else Failure(NoFactoryFound(key.name))
  }

  /** What `parseCommand` makes of a command line: its `split(" ")` tokens. */
  function Parse(factories: map<Key, FactoryId>, game: GameClass, desc: string): Result<Command, ParseError>
  {
    ParseTokens(factories, game, Text.SplitSpaces(desc))
  }

  /** The static `commandFactories` map. */
  class CommandRegistry {
    var factories: map<Key, FactoryId>

    constructor ()
      ensures factories == map[]
    {
      factories := map[];
    }

    /** `registerCommandFactory`: one entry under (game class, normalised
        name); a second registration under the same key replaces the first. */
    method RegisterCommandFactory(game: GameClass, commandName: string, factory: FactoryId)
      modifies this
      ensures factories == old(factories)[Key(game, Normalize(commandName)) := factory]
    {
      factories := factories[Key(game, Normalize(commandName)) := factory];
    }

    /** `parseCommand`: copies the split tokens into a list, removes the first
        as the command name and looks up the factory for it. */
    method ParseCommand(game: GameClass, desc: string) returns (r: Result<Command, ParseError>)
      ensures r == Parse(factories, game, desc)
    {
      var all := Text.SplitSpaces(desc);
      var commandDesc: seq<string> := [];
      for i := 0 to |all|
        invariant commandDesc == all[..i]
      {
        commandDesc := commandDesc + [all[i]];
      }
      assert all[..|all|] == all;
      if commandDesc == [] {
        return Failure(IndexOutOfBounds);
      }
      var commandName := Normalize(commandDesc[0]);
      commandDesc := commandDesc[1..];
      var key := Key(game, commandName);
      if key in factories {
        return Success(Built(factories[key], game, commandDesc));
      }
      return Failure(NoFactoryFound(commandName));
    }
  }

  /** After registering a factory, a command line whose first word names it
      (in any letter case, with any outer blanks) reaches that factory with
      the remaining words in their order. */
  lemma RegisteredIsFound(factories: map<Key, FactoryId>, game: GameClass, commandName: string, factory: FactoryId,
                          word: string, rest: seq<string>)
    requires Normalize(word) == Normalize(commandName)
    ensures ParseTokens(factories[Key(game, Normalize(commandName)) := factory], game, [word] + rest)
         == Success(Built(factory, game, rest))
  {
    assert ([word] + rest)[1..] == rest;
  }

  /** Lookup ignores letter case: a lower-cased name finds the same factory. */
  lemma LookupIgnoresCase(factories: map<Key, FactoryId>, game: GameClass, word: string, rest: seq<string>)
    ensures ParseTokens(factories, game, [Text.ToLower(word)] + rest) == ParseTokens(factories, game, [word] + rest)
  {
    Text.UpperIgnoresCase(word);
  }

  /** A registration for one game class is invisible to every other. */
  lemma OtherGameClassUnaffected(factories: map<Key, FactoryId>, game: GameClass, commandName: string, factory: FactoryId,
                                 other: GameClass, tokens: seq<string>)
    requires other != game
    ensures ParseTokens(factories[Key(game, Normalize(commandName)) := factory], other, tokens)
         == ParseTokens(factories, other, tokens)
  {
  }

  /** Registering twice under the same key keeps only the second factory. */
  lemma ReRegisterReplaces(factories: map<Key, FactoryId>, game: GameClass, a: string, b: string,
                           first: FactoryId, second: FactoryId, tokens: seq<string>)
    requires Normalize(a) == Normalize(b)
    ensures ParseTokens(factories[Key(game, Normalize(a)) := first][Key(game, Normalize(b)) := second], game, tokens)
         == ParseTokens(factories[Key(game, Normalize(b)) := second], game, tokens)
  {
    assert factories[Key(game, Normalize(a)) := first][Key(game, Normalize(b)) := second]
        == factories[Key(game, Normalize(b)) := second];
  }

  /** The command name is the first word of the line, before the first space. */
  lemma NameIsFirstWord(factories: map<Key, FactoryId>, game: GameClass, word: string, rest: string)
    requires word != [] && ' ' !in word
    ensures Parse(factories, game, word + " " + rest).Success? <==> Key(game, Normalize(word)) in factories
    ensures Parse(factories, game, word + " " + rest).Failure? ==>
      Parse(factories, game, word + " " + rest).error == NoFactoryFound(Normalize(word))
  {
    Text.SplitFirstWord(word, rest);
  }

  /** A line of nothing but spaces has no first token to remove. */
  lemma BlankLineHasNoName(factories: map<Key, FactoryId>, game: GameClass, n: nat)
    requires n >= 1
    ensures Parse(factories, game, seq(n, _ => ' ')) == Failure(IndexOutOfBounds)
  {
    Text.SpacesSplitToNothing(n);
  }

  /** The empty line is one empty token: it names the command "". */
  lemma EmptyLineNamesEmptyCommand(factories: map<Key, FactoryId>, game: GameClass)
    ensures Parse(factories, game, "").Success? <==> Key(game, "") in factories
  {
    assert Text.SplitSpaces("") == [""];
    assert Text.Trim(Text.ToUpper("")) == "";
  }
}
