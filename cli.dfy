/** How the script chooses what to do from `sys.argv`. */
module Cli {

  datatype Mode =
    | Help        // print the usage text
    | Version     // print the version line
    | Regenerate  // rebuild the cache file
    | ShowMenu    // pop up the menu and exec the selection

  /**
   * The `if '-h' in sys.argv / elif '-v' / elif '-r' / else` chain. The test
   * is membership in the whole of `sys.argv`, the script name included.
   */
  function Dispatch(argv: seq<string>): (mode: Mode)
    ensures mode == Help <==> "-h" in argv
    ensures mode == Version <==> "-h" !in argv && "-v" in argv
    ensures mode == Regenerate <==> "-h" !in argv && "-v" !in argv && "-r" in argv
    ensures mode == ShowMenu <==> "-h" !in argv && "-v" !in argv && "-r" !in argv
  {
    if "-h" in argv then Help
    else if "-v" in argv then Version
    else if "-r" in argv then Regenerate
    else ShowMenu
  }

  /**
   * Neither the order of the arguments nor other arguments next to a flag
   * matter: only which of the three flags occur anywhere.
   */
  lemma DispatchIgnoresOrder(argv: seq<string>, other: seq<string>)
    requires forall a :: a in argv <==> a in other
    ensures Dispatch(argv) == Dispatch(other)
  {
  }

  /** `-h` wins over anything added before or after it. */
  lemma HelpDominates(argv: seq<string>, before: seq<string>, after: seq<string>)
    requires "-h" in argv
    ensures Dispatch(before + argv + after) == Help
  {
    assert "-h" in before + argv + after;
  }
}
