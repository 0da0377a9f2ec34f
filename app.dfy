/**
 * The interactive state of src/app.rs: up to five search strings
 * ("dimensions") typed one after the other, the history entries matching
 * them, the highlighted entry and the outcome of the session. `App` is a
 * class because every key event updates its fields in place.
 */
module Application {
  import opened Wrappers
  import opened Errors
  import opened Shell
  import opened Configuration
  import opened HistoryParse
  import opened HistoryFilter
  import opened History

  /** The number of search strings, one per dimension. */
  const MAX_DIMENSIONS: nat := 5

  /** The key codes the application distinguishes; `Unhandled` stands for every other crossterm key code. */
  datatype KeyCode = Char(c: char) | Esc | Up | Down | Enter | Backspace | Unhandled

  /** A key press; `control` says whether the CONTROL modifier was held. */
  datatype KeyEvent = KeyEvent(code: KeyCode, control: bool)

  /** Ctrl-C and Esc end the session. */
  predicate IsQuit(key: KeyEvent) {
    (key.code == Char('c') && key.control) || key.code == Esc
  }

  /** Ctrl-R moves to the next dimension. */
  predicate IsNextDimension(key: KeyEvent) {
    key.code == Char('r') && key.control
  }

  /** Any other character key, with or without modifiers, is typed into the current search string. */
  predicate IsTyped(key: KeyEvent) {
    key.code.Char? && !IsQuit(key) && !IsNextDimension(key)
  }

  /** The selected index after refiltering: pulled back onto the last entry when it has fallen off the end. */
  function Clamp(index: nat, view: seq<HistoryEntry>): (r: nat)
    ensures view != [] ==> r < |view|
    ensures index < |view| ==> r == index
    ensures view == [] ==> r == index
  {
    if view != [] && index >= |view| then |view| - 1 else index
  }

  /**
   * The layout the search strings keep: one per dimension, the ones below
   * the current dimension non-empty and the ones above it empty.
   */
  predicate Layered(filters: seq<string>, dimension: nat) {
    |filters| == MAX_DIMENSIONS && dimension < MAX_DIMENSIONS &&
    (forall i :: 0 <= i < dimension ==> filters[i] != []) &&
    (forall i :: dimension < i < |filters| ==> filters[i] == [])
  }

  /** What `update_filters` shows: the entries selected by the search strings up to and including the current one. */
  function ViewOf(entries: seq<HistoryEntry>, filters: seq<string>, dimension: nat): seq<HistoryEntry>
    requires dimension < |filters|
  {
    FilterResult(entries, filters[..dimension + 1])
  }

  /** Editing the current search string keeps the layout. */
  lemma EditKeepsLayout(filters: seq<string>, dimension: nat, f: string)
    requires Layered(filters, dimension)
    ensures Layered(filters[dimension := f], dimension)
  {
  }

  /**
   * Ctrl-R moves on only from a non-empty search string, so the layout is
   * kept, and the new search string is empty, so the view is unchanged.
   */
  lemma NextKeepsLayout(entries: seq<HistoryEntry>, filters: seq<string>, dimension: nat)
    requires Layered(filters, dimension) && filters[dimension] != [] && dimension + 1 < MAX_DIMENSIONS
    ensures Layered(filters, dimension + 1)
    ensures ViewOf(entries, filters, dimension + 1) == ViewOf(entries, filters, dimension)
  {
    NextDimensionKeepsView(entries, filters, dimension);
  }

  /**
   * Backspace moves back only from an empty search string, so the layout is
   * kept and the view is unchanged.
   */
  lemma BackKeepsLayout(entries: seq<HistoryEntry>, filters: seq<string>, dimension: nat)
    requires Layered(filters, dimension) && filters[dimension] == [] && dimension > 0
    ensures Layered(filters, dimension - 1)
    ensures ViewOf(entries, filters, dimension - 1) == ViewOf(entries, filters, dimension)
  {
    NextDimensionKeepsView(entries, filters, dimension - 1);
  }

  class App {
    const config: Config
    const historyManager: HistoryManager
    /** One search string per dimension. */
    var filters: seq<string>
    var currentDimension: nat
    const maxDimensions: nat
    /** The entries shown. */
    var filteredEntries: seq<HistoryEntry>
    var selectedIndex: nat
    var shouldQuit: bool
    var selectedCommand: Option<string>
    /** Whether `update_filters` has run at least once. */
    ghost var synced: bool

    /** The entries the current search strings select. */
    function View(): seq<HistoryEntry>
      reads this
      requires currentDimension < |filters|
    {
      ViewOf(historyManager.entries, filters, currentDimension)
    }

    /**
     * The search strings keep their layout, the selection is on an entry
     * whenever one is shown, and once `update_filters` has run the entries
     * shown are those the search strings select.
     */
    ghost predicate Valid()
      reads this
    {
      maxDimensions == MAX_DIMENSIONS && Layered(filters, currentDimension) &&
      (filteredEntries != [] ==> selectedIndex < |filteredEntries|) &&
      (synced ==> filteredEntries == View())
    }

    /** `App::new` once the history manager exists: five empty search strings and nothing shown yet. */
    constructor (config: Config, historyManager: HistoryManager)
      ensures Valid()
      ensures this.config == config && this.historyManager == historyManager
      ensures filters == [[], [], [], [], []] && currentDimension == 0 && maxDimensions == 5
      ensures filteredEntries == [] && selectedIndex == 0 && !shouldQuit && selectedCommand == None
      ensures !synced
    {
      this.config := config;
      this.historyManager := historyManager;
      filters := [[], [], [], [], []];
      currentDimension := 0;
      maxDimensions := 5;
      filteredEntries := [];
      selectedIndex := 0;
      shouldQuit := false;
      selectedCommand := None;
      synced := false;
    }

    /** `update_filters`: recomputes the entries shown and keeps the selection on them. */
    method UpdateFilters()
      requires maxDimensions == MAX_DIMENSIONS && Layered(filters, currentDimension)
      modifies this`filteredEntries, this`selectedIndex, this`synced
      ensures Valid() && synced
      ensures filteredEntries == View()
      ensures selectedIndex == Clamp(old(selectedIndex), filteredEntries)
    {
      var active := filters[..currentDimension + 1];
      filteredEntries := FilterMultiple(historyManager, active);
      if active != [] && active[0] != [] {
        FilterSelects(historyManager.entries, active);
      }
      if filteredEntries != [] && selectedIndex >= |filteredEntries| {
        selectedIndex := |filteredEntries| - 1;
      }
      synced := true;
    }

    /** `handle_key_event`. */
    method HandleKeyEvent(key: KeyEvent)
      requires Valid()
      modifies this
      ensures Valid()
      // the view is recomputed exactly when a search string is edited
      ensures synced == (old(synced) || IsTyped(key) || (key.code == Backspace && old(filters)[old(currentDimension)] != []))
      // quitting leaves the selection and the search alone
      ensures IsQuit(key) ==>
        shouldQuit && unchanged(this`filters, this`currentDimension, this`filteredEntries, this`selectedIndex, this`selectedCommand)
      // moving up and down stays on the entries shown
      ensures key.code == Up ==>
        selectedIndex == (if old(filteredEntries) == [] || old(selectedIndex) == 0 then old(selectedIndex) else old(selectedIndex) - 1) &&
        unchanged(this`filters, this`currentDimension, this`filteredEntries, this`shouldQuit, this`selectedCommand)
      ensures key.code == Down ==>
        selectedIndex == (if old(filteredEntries) == [] then old(selectedIndex)
                          else if old(selectedIndex) + 1 < |old(filteredEntries)| then old(selectedIndex) + 1
                          else |old(filteredEntries)| - 1) &&
        unchanged(this`filters, this`currentDimension, this`filteredEntries, this`shouldQuit, this`selectedCommand)
      // Enter picks the highlighted command, when there is one
      ensures key.code == Enter && old(filteredEntries) != [] ==>
        selectedCommand == Some(old(filteredEntries)[old(selectedIndex)].command) && shouldQuit &&
        unchanged(this`filters, this`currentDimension, this`filteredEntries, this`selectedIndex)
      ensures key.code == Enter && old(filteredEntries) == [] ==> unchanged(this)
      // Ctrl-R opens the next search string when the current one is non-empty and is not the last
      ensures IsNextDimension(key) ==>
        currentDimension == (if old(filters)[old(currentDimension)] != [] && old(currentDimension) < maxDimensions - 1
                             then old(currentDimension) + 1 else old(currentDimension)) &&
        unchanged(this`filters, this`filteredEntries, this`selectedIndex, this`shouldQuit, this`selectedCommand)
      // typing appends to the current search string only, then refilters
      ensures IsTyped(key) ==>
        filters == old(filters)[old(currentDimension) := old(filters)[old(currentDimension)] + [key.code.c]] &&
        filteredEntries == View() && selectedIndex == Clamp(old(selectedIndex), filteredEntries) &&
        unchanged(this`currentDimension, this`shouldQuit, this`selectedCommand)
      // Backspace deletes from the current search string and refilters, or goes back a dimension when it is empty
      ensures key.code == Backspace && old(filters)[old(currentDimension)] != [] ==>
        filters == old(filters)[old(currentDimension) := old(filters)[old(currentDimension)][..|old(filters)[old(currentDimension)]| - 1]] &&
        filteredEntries == View() && selectedIndex == Clamp(old(selectedIndex), filteredEntries) &&
        unchanged(this`currentDimension, this`shouldQuit, this`selectedCommand)
      ensures key.code == Backspace && old(filters)[old(currentDimension)] == [] ==>
        currentDimension == (if old(currentDimension) > 0 then old(currentDimension) - 1 else 0) &&
        unchanged(this`filters, this`filteredEntries, this`selectedIndex, this`shouldQuit, this`selectedCommand)
      // every other key is ignored
      ensures key.code == Unhandled ==> unchanged(this)
    {
      match key.code
      case Char(c) =>
        if c == 'c' && key.control {
          shouldQuit := true;
        } else if c == 'r' && key.control {
          NextDimension();
        } else {
          TypeChar(c);
        }
      case Esc =>
        shouldQuit := true;
      case Up =>
        if filteredEntries != [] {
          selectedIndex := if selectedIndex == 0 then 0 else selectedIndex - 1;
        }
      case Down =>
        if filteredEntries != [] {
          selectedIndex := if selectedIndex + 1 < |filteredEntries| then selectedIndex + 1 else |filteredEntries| - 1;
        }
      case Enter =>
        if filteredEntries != [] {
          selectedCommand := Some(filteredEntries[selectedIndex].command);
          shouldQuit := true;
        }
      case Backspace =>
        Erase();
      case Unhandled =>
    }

    /** Ctrl-R: on to the next search string, unless the current one is empty or is the last. */
    method NextDimension()
      requires Valid()
      modifies this`currentDimension
      ensures Valid()
      ensures currentDimension ==
        if old(filters[currentDimension]) != [] && old(currentDimension) < maxDimensions - 1
        then old(currentDimension) + 1 else old(currentDimension)
    {
      if filters[currentDimension] != [] && currentDimension < maxDimensions - 1 {
        NextKeepsLayout(historyManager.entries, filters, currentDimension);
        currentDimension := currentDimension + 1;
      }
    }

    /** A character typed into the current search string, then `update_filters`. */
    method TypeChar(c: char)
      requires Valid()
      modifies this`filters, this`filteredEntries, this`selectedIndex, this`synced
      ensures Valid() && synced
      ensures filters == old(filters)[currentDimension := old(filters)[currentDimension] + [c]]
      ensures filteredEntries == View() && selectedIndex == Clamp(old(selectedIndex), filteredEntries)
    {
      EditKeepsLayout(filters, currentDimension, filters[currentDimension] + [c]);
      filters := filters[currentDimension := filters[currentDimension] + [c]];
      UpdateFilters();
    }

    /**
     * Backspace: the last character of the current search string is deleted
     * and the view recomputed; on an empty search string, back to the
     * previous one, if any.
     */
    method Erase()
      requires Valid()
      modifies this`filters, this`currentDimension, this`filteredEntries, this`selectedIndex, this`synced
      ensures Valid()
      ensures old(filters[currentDimension]) != [] ==>
        currentDimension == old(currentDimension) &&
        filters == old(filters)[currentDimension := old(filters)[currentDimension][..|old(filters)[currentDimension]| - 1]] &&
        synced && filteredEntries == View() && selectedIndex == Clamp(old(selectedIndex), filteredEntries)
      ensures old(filters[currentDimension]) == [] ==>
        currentDimension == (if old(currentDimension) > 0 then old(currentDimension) - 1 else 0) &&
        unchanged(this`filters, this`filteredEntries, this`selectedIndex, this`synced)
    {
      if filters[currentDimension] != [] {
        var shorter := filters[currentDimension][..|filters[currentDimension]| - 1];
        EditKeepsLayout(filters, currentDimension, shorter);
        filters := filters[currentDimension := shorter];
        UpdateFilters();
      } else if currentDimension > 0 {
        BackKeepsLayout(historyManager.entries, filters, currentDimension);
        currentDimension := currentDimension - 1;
      }
    }
  }

  /**
   * Moving between dimension d and d + 1 when search string d + 1 is empty
   * does not change what the active search strings select.
   */
  lemma NextDimensionKeepsView(es: seq<HistoryEntry>, filters: seq<string>, d: nat)
    requires d + 1 < |filters| && filters[d + 1] == []
    ensures FilterResult(es, filters[..d + 2]) == FilterResult(es, filters[..d + 1])
  {
    assert filters[..d + 2] == filters[..d + 1] + [[]];
    FilterIgnoresEmptyLast(es, filters[..d + 1]);
  }

  /** `App::new`: builds the history manager for the configuration, then the initial state. */
  method NewApp(config: Config, file: Result<seq<Line>, string>) returns (r: Result<App, Error>)
    ensures file.Err? ==> r == Err(OpenError(file.error))
    ensures file.Ok? ==> r.Ok? && fresh(r.value) && r.value.Valid()
    ensures r.Ok? ==>
      (r.value.config == config &&
       r.value.historyManager == HistoryManager(ReadHistory(FormatOf(config.shellType), file.value), config.shellType) &&
       r.value.filters == [[], [], [], [], []] && r.value.currentDimension == 0 && r.value.filteredEntries == [] &&
       r.value.selectedIndex == 0 && !r.value.shouldQuit && r.value.selectedCommand == None)
  {
    var manager :- NewManager(config, file);
    var app := new App(config, manager);
    return Ok(app);
  }
}
