/**
 * Command-line handling of build.py: every token loses its dashes, and the
 * resulting names decide whether the script stops with a usage message, stops
 * after printing help, or goes on to build with that set of options.
 */
module Options {
  import opened Wrappers
  import opened PyStr

  /** The four options the script knows. */
  function Recognized(): set<string>
  {
    {"release", "clean", "verbose", "help"}
  }

  /** The name a token stands for: the token with every '-' removed, wherever it stands. */
  function Canonical(token: string): (name: string)
    ensures '-' !in name
    ensures '-' !in token ==> name == token
  {
    RemoveAll(token, '-')
  }

  /** `--clean`, `-clean` and `clean` all name the same option. */
  lemma LeadingDashesIgnored(dashes: nat, name: string)
    ensures Canonical(Repeat('-', dashes) + name) == Canonical(name)
  {
    RemoveAllLeading('-', dashes, name);
  }

  /** A dash anywhere inside a token is ignored too (`rel-ease` names `release`). */
  lemma InnerDashIgnored(a: string, b: string)
    ensures Canonical(a + "-" + b) == Canonical(a + b)
  {
    RemoveAllAppend(a + "-", b, '-');
    RemoveAllAppend(a, "-", '-');
    RemoveAllAppend(a, b, '-');
  }

  /** The set of option names the command line gives. */
  function Normalize(argv: seq<string>): set<string>
  {
    set a | a in argv :: Canonical(a)
  }

  /** What the command line makes the script do. */
  datatype Gating =
    | Usage(unrecognized: set<string>)  // usage and the unknown names printed, exit status 1
    | Help                              // usage printed, normal return: nothing is built
    | Proceed(options: set<string>)     // the build runs with these options
  {
    /** The exit status when the script stops here; a build that proceeds has none yet. */
    function ExitStatus(): Option<int>
    {
      match this
      case Usage(_) => Some(1)
      case Help => Some(0)
      case Proceed(_) => None
    }
  }

  /** The check at the top of `main()`, before the script touches the file system. */
  function Gate(argv: seq<string>): Gating
  {
    var args := Normalize(argv);
    var nonsense := args - Recognized();
    if nonsense != {} || "help" in args then
      if nonsense != {} then Usage(nonsense) else Help
    else
      Proceed(args)
  }

  /**
   * What the check decides, token by token: any token that does not name a
   * known option is a usage error with status 1, listing exactly the unknown
   * names; otherwise `help` among the tokens stops the script with nothing
   * built; otherwise the build proceeds with exactly the named options.
   */
  lemma GateDecision(argv: seq<string>)
    ensures Gate(argv).Usage? <==> exists a :: a in argv && Canonical(a) !in Recognized()
    ensures Gate(argv).Usage? ==> Gate(argv).ExitStatus() == Some(1) && Gate(argv).unrecognized != {}
    ensures Gate(argv).Usage? ==> forall o :: o in Gate(argv).unrecognized <==>
                                    o !in Recognized() && exists a :: a in argv && Canonical(a) == o
    ensures Gate(argv).Help? <==> (forall a :: a in argv ==> Canonical(a) in Recognized())
                                  && exists a :: a in argv && Canonical(a) == "help"
    ensures Gate(argv).Help? ==> Gate(argv).ExitStatus() == Some(0)
    ensures Gate(argv).Proceed? ==> Gate(argv).options <= Recognized() && "help" !in Gate(argv).options
    ensures Gate(argv).Proceed? ==> forall o :: o in Gate(argv).options <==> exists a :: a in argv && Canonical(a) == o
  {
  }

  /** Two command lines that name the same options get the same decision. */
  lemma GateSameNames(argv1: seq<string>, argv2: seq<string>)
    requires forall a :: a in argv1 ==> Canonical(a) in Normalize(argv2)
    requires forall b :: b in argv2 ==> Canonical(b) in Normalize(argv1)
    ensures Gate(argv1) == Gate(argv2)
  {
    assert Normalize(argv1) == Normalize(argv2);
  }

  /** The order and the repetition of the tokens make no difference: only which tokens occur counts. */
  lemma GateIgnoresOrder(argv1: seq<string>, argv2: seq<string>)
    requires forall a :: a in argv1 <==> a in argv2
    ensures Gate(argv1) == Gate(argv2)
  {
    forall a | a in argv1 ensures Canonical(a) in Normalize(argv2) {
      assert a in argv2;
    }
    forall b | b in argv2 ensures Canonical(b) in Normalize(argv1) {
      assert b in argv1;
    }
    GateSameNames(argv1, argv2);
  }

  /** Each token given with any number of leading dashes: the decision is the same. */
  lemma GateIgnoresDashes(argv: seq<string>, dashes: seq<nat>)
    requires |dashes| == |argv|
    ensures Gate(seq(|argv|, i requires 0 <= i < |argv| => Repeat('-', dashes[i]) + argv[i])) == Gate(argv)
  {
    var marked := seq(|argv|, i requires 0 <= i < |argv| => Repeat('-', dashes[i]) + argv[i]);
    forall a | a in marked ensures Canonical(a) in Normalize(argv) {
      var i :| 0 <= i < |argv| && marked[i] == a;
      LeadingDashesIgnored(dashes[i], argv[i]);
    }
    forall b | b in argv ensures Canonical(b) in Normalize(marked) {
      var i :| 0 <= i < |argv| && argv[i] == b;
      LeadingDashesIgnored(dashes[i], argv[i]);
      assert marked[i] in marked;
    }
    GateSameNames(marked, argv);
  }
}
