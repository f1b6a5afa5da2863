/**
 * The Spotlight command palette (`cmd/quilt-web/ui/Spotlight.tsx`): the
 * commands shown for a search text, matched case-insensitively on the name
 * or an alias, and the `showSpotlight` flag that Ctrl+K or Cmd+K flips and
 * that confirming a command or closing the dialog clears.
 */
module Spotlight {
  import opened Common
  import opened Strings
  import opened Seqs

  /** A command as the palette sees it; `aliases` is optional. */
  datatype Command = Command(name: string, aliases: Option<seq<string>>)

  /** `aliases.some(alias => alias.toLocaleLowerCase().includes(lowered))`, first alias first. */
  function AnyAliasMatches(aliases: seq<string>, lowered: string): (r: bool)
    ensures r <==> exists k | 0 <= k < |aliases| :: Contains(Lower(aliases[k]), lowered)
  {
    if aliases == [] then false
    else Contains(Lower(aliases[0]), lowered) || AnyAliasMatches(aliases[1..], lowered)
  }

  /** The filter's test against the already lower-cased search text. */
  predicate CommandMatches(command: Command, lowered: string)
  {
    Contains(Lower(command.name), lowered)
    || (command.aliases.Some? && AnyAliasMatches(command.aliases.value, lowered))
  }

  function MatchesLowered(lowered: string): Command -> bool
  {
    command => CommandMatches(command, lowered)
  }

  /** `filteredCommands`: the commands matching the search text, lower-cased once, in their order. */
  function FilterCommands(commands: seq<Command>, searchText: string): (r: seq<Command>)
    ensures |r| <= |commands|
  {
    Filter(commands, MatchesLowered(Lower(searchText)))
  }

  /**
   * A command is shown exactly when its lower-cased name, or one of its
   * lower-cased aliases, contains the lower-cased search text.
   */
  lemma FilterCommandsKeeps(commands: seq<Command>, searchText: string, command: Command)
    ensures command in FilterCommands(commands, searchText)
            <==> command in commands
                 && (Contains(Lower(command.name), Lower(searchText))
                     || (command.aliases.Some?
                         && exists k | 0 <= k < |command.aliases.value| :: Contains(Lower(command.aliases.value[k]), Lower(searchText))))
  {
    FilterMembership(commands, MatchesLowered(Lower(searchText)), command);
  }

  /** A command without aliases is matched on its name alone. */
  lemma NoAliasesMatchesName(command: Command, searchText: string)
    requires command.aliases.None?
    ensures command in FilterCommands([command], searchText) <==> Contains(Lower(command.name), Lower(searchText))
  {
    FilterCommandsKeeps([command], searchText, command);
  }

  /** Case is ignored in the search text: texts equal up to case show the same commands. */
  lemma FilterIgnoresCase(commands: seq<Command>, a: string, b: string)
    requires Lower(a) == Lower(b)
    ensures FilterCommands(commands, a) == FilterCommands(commands, b)
  {
  }

  /** Case is ignored in the names: a lower-cased search text finds a name written in any case. */
  lemma NameFoundInAnyCase(command: Command)
    ensures command in FilterCommands([command], command.name)
  {
    var lowered := Lower(command.name);
    assert lowered <= lowered;
    assert Contains(lowered, lowered);
    FilterCommandsKeeps([command], command.name, command);
  }

  /** The shown commands keep the palette's order; an empty search shows them all. */
  lemma FilterCommandsOrder(commands: seq<Command>, searchText: string)
    ensures IsSubsequence(FilterCommands(commands, searchText), commands)
    ensures searchText == "" ==> FilterCommands(commands, searchText) == commands
  {
    FilterIsSubsequence(commands, MatchesLowered(Lower(searchText)));
    if searchText == "" {
      forall k | 0 <= k < |commands| ensures MatchesLowered("")(commands[k]) {
        ContainsEmpty(Lower(commands[k].name));
      }
      FilterKeepsAll(commands, MatchesLowered(""));
    }
  }

  /** The key handler's new value of `showSpotlight`: flipped by `k` with Ctrl or Meta held. */
  function ToggleOnKey(show: bool, key: string, metaKey: bool, ctrlKey: bool): bool
  {
    if (metaKey || ctrlKey) && key == "k" then !show else show
  }

  /** The shortcut flips the flag, any other key leaves it, and pressing the shortcut twice restores it. */
  lemma ToggleOnKeyBehaviour(show: bool, key: string, metaKey: bool, ctrlKey: bool)
    ensures (metaKey || ctrlKey) && key == "k" ==> ToggleOnKey(show, key, metaKey, ctrlKey) == !show
    ensures !((metaKey || ctrlKey) && key == "k") ==> ToggleOnKey(show, key, metaKey, ctrlKey) == show
    ensures ToggleOnKey(ToggleOnKey(show, key, metaKey, ctrlKey), key, metaKey, ctrlKey) == show
  {
  }

  /** The `showSpotlight` signal of the app context. */
  class SpotlightState {
    var showSpotlight: bool

    constructor(show: bool)
      ensures showSpotlight == show
    {
      showSpotlight := show;
    }

    /** The document keydown handler of `SpotlightSpawner`. */
    method HandleKeydown(key: string, metaKey: bool, ctrlKey: bool)
      modifies this
      ensures showSpotlight == ToggleOnKey(old(showSpotlight), key, metaKey, ctrlKey)
    {
      if (metaKey || ctrlKey) && key == "k" {
        showSpotlight := !showSpotlight;
      }
    }

    /** `onClose` of the dialog. */
    method Close()
      modifies this
      ensures !showSpotlight
    {
      showSpotlight := false;
    }

    /** `onConfirmItem`: hides the palette, then hands back the command to run. */
    method ConfirmItem(command: Command) returns (run: Command)
      modifies this
      ensures !showSpotlight && run == command
    {
      showSpotlight := false;
      run := command;
    }
  }
}
