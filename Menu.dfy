/**
 * The main program loop: the top-level menu and the Create PDF sub-menu as a
 * three-screen state machine driven by the user's menu answers.
 */
module Menu {
  import opened Office

  datatype Screen = MainMenu | CreateMenu | Exited

  /** What one menu answer makes the program do. */
  datatype Action =
    | MergePdfFiles          // `pdf_merger()`
    | BlogToPdf              // `blog_to_pdf()`
    | OpenCreateMenu         // enter the Create PDF sub-menu
    | ImageToPdf             // `image_to_pdf()`
    | OfficeToPdf(kind: OfficeKind)  // `word_to_pdf()`, `excel_to_pdf()`, `powerpoint_to_pdf()`
    | BackToMain             // leave the sub-menu
    | Goodbye                // leave the program
    | InvalidChoice          // "Invalid choice!", the same menu again

  /** One answer on a live screen. Answers are compared exactly as typed, without stripping. */
  function Step(screen: Screen, choice: string): (Screen, Action)
    requires screen != Exited
  {
    match screen
    case MainMenu =>
      if choice == "1" then (MainMenu, MergePdfFiles)
      else if choice == "2" then (MainMenu, BlogToPdf)
      else if choice == "3" then (CreateMenu, OpenCreateMenu)
      else if choice == "4" then (Exited, Goodbye)
      else (MainMenu, InvalidChoice)
    case CreateMenu =>
      if choice == "1" then (CreateMenu, ImageToPdf)
      else if choice == "2" then (CreateMenu, OfficeToPdf(Word))
      else if choice == "3" then (CreateMenu, OfficeToPdf(Excel))
      else if choice == "4" then (CreateMenu, OfficeToPdf(PowerPoint))
      else if choice == "5" then (MainMenu, BackToMain)
      else (CreateMenu, InvalidChoice)
  }

  /** The screen reached and the actions taken from `screen` on the answers `choices`. */
  function Run(screen: Screen, choices: seq<string>): (Screen, seq<Action>)
    decreases |choices|
  {
    if screen == Exited || choices == [] then (screen, [])
    else
      var (next, action) := Step(screen, choices[0]);
      var (last, actions) := Run(next, choices[1..]);
      (last, [action] + actions)
  }

  /** Only `4` on the main menu ends the program; the sub-menu can only go back to it. */
  lemma ExitOnlyFromMain(screen: Screen, choice: string)
    requires screen != Exited
    ensures Step(screen, choice).0 == Exited <==> screen == MainMenu && choice == "4"
    ensures screen == CreateMenu ==> (Step(screen, choice).0 == MainMenu <==> choice == "5")
  {
  }

  /** An unrecognised answer leaves the screen as it was. */
  lemma InvalidKeepsScreen(screen: Screen, choice: string)
    requires screen != Exited
    ensures Step(screen, choice).1 == InvalidChoice <==> Step(screen, choice).0 == screen && !(screen == CreateMenu && choice in ["1", "2", "3", "4"]) && !(screen == MainMenu && choice in ["1", "2"])
  {
  }

  /** Answers after the program exits are never read. */
  lemma {:induction false} NothingAfterExit(screen: Screen, xs: seq<string>, ys: seq<string>)
    requires Run(screen, xs).0 == Exited
    ensures Run(screen, xs + ys) == Run(screen, xs)
    decreases |xs|
  {
    if screen != Exited {
      assert xs != [];
      assert (xs + ys)[0] == xs[0] && (xs + ys)[1..] == xs[1..] + ys;
      NothingAfterExit(Step(screen, xs[0]).0, xs[1..], ys);
    }
  }

  /** A run that exits ends with `Goodbye`, and `Goodbye` occurs nowhere else. */
  lemma {:induction false} ExitEndsWithGoodbye(screen: Screen, xs: seq<string>)
    requires screen != Exited
    ensures var (last, actions) := Run(screen, xs);
      && (last == Exited <==> Goodbye in actions)
      && (last == Exited ==> actions[|actions| - 1] == Goodbye)
      && (forall k :: 0 <= k < |actions| - 1 ==> actions[k] != Goodbye)
    decreases |xs|
  {
    if xs != [] {
      var (next, action) := Step(screen, xs[0]);
      if next != Exited {
        ExitEndsWithGoodbye(next, xs[1..]);
      }
    }
  }

  /** Actions offered only by the Create PDF sub-menu. */
  predicate SubMenuAction(a: Action)
  {
    a.ImageToPdf? || a.OfficeToPdf?
  }

  /** From the main menu, an image or office conversion always follows an entry into the sub-menu. */
  lemma {:induction false} SubMenuActionsFollowEntry(screen: Screen, xs: seq<string>, k: nat)
    requires screen != CreateMenu
    requires k < |Run(screen, xs).1| && SubMenuAction(Run(screen, xs).1[k])
    ensures exists j :: 0 <= j < k && Run(screen, xs).1[j] == OpenCreateMenu
  {
    var (next, action) := Step(screen, xs[0]);
    var actions := Run(screen, xs).1;
    assert actions == [action] + Run(next, xs[1..]).1;
    if next == CreateMenu {
      assert actions[0] == OpenCreateMenu;
    } else {
      SubMenuActionsFollowEntry(next, xs[1..], k - 1);
      var j :| 0 <= j < k - 1 && Run(next, xs[1..]).1[j] == OpenCreateMenu;
      assert actions[j + 1] == OpenCreateMenu;
    }
  }

  /**
   * The `while True` loop of the main program, over the menu answers only.
   * `consumed` is how many answers were read before the program exited or
   * the answers ran out.
   */
  method RunMenu(choices: seq<string>) returns (screen: Screen, actions: seq<Action>, consumed: nat)
    ensures (screen, actions) == Run(MainMenu, choices)
    ensures consumed <= |choices| && |actions| == consumed
    ensures screen != Exited ==> consumed == |choices|
  {
    screen, actions := MainMenu, [];
    var i := 0;
    assert choices[0..] == choices;
    assert [] + Run(MainMenu, choices).1 == Run(MainMenu, choices).1;
    while screen != Exited && i < |choices|
      invariant 0 <= i <= |choices| && |actions| == i
      invariant var (last, rest) := Run(screen, choices[i..]);
        Run(MainMenu, choices) == (last, actions + rest)
    {
      assert choices[i..][0] == choices[i] && choices[i..][1..] == choices[i + 1..];
      var (next, action) := Step(screen, choices[i]);
      assert actions + ([action] + Run(next, choices[i + 1..]).1) == (actions + [action]) + Run(next, choices[i + 1..]).1;
      screen, actions := next, actions + [action];
      i := i + 1;
    }
    assert Run(screen, choices[i..]).1 == [];
    assert actions + [] == actions;
    consumed := i;
  }
}
