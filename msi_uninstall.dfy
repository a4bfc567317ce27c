/**
 * The selection logic of UninstallMsiProductByNameAction: which installed
 * MSI products are uninstalled for a given list of target patterns and
 * exception patterns, the batch-level gate on installed exceptions, the
 * formatting of a product code and the classification of msiexec's exit
 * code. The inventory of installed products is an input.
 */
module MsiUninstall {
  import opened Wrappers
  import opened MsiPatterns

  /** An installed product: its display name and its product code
      (the GUID without braces). */
  datatype Product = Product(name: string, id: string)

  /** The typed settings of the action, as read from its configuration. */
  datatype Config = Config(
    applicationName: string,
    exceptions: string,
    parameters: string,
    dontUninstallIfNoException: bool,
    killProcess: bool,
    killAfter: int)

  // ---------------------------------------------------------------------
  // Reference definitions of the selection
  // ---------------------------------------------------------------------

  /** Every pattern of the list can be handed to the matcher. */
  predicate SafePatterns(patterns: seq<string>)
  {
    forall j :: 0 <= j < |patterns| ==> SafePattern(patterns[j])
  }

  /** Every name of a ';'-separated text can be handed to the matcher. */
  predicate ValidPatternText(text: string)
  {
    SafePatterns(NamesOf(text))
  }

  /** The name matches at least one of the patterns. */
  predicate MatchesAny(name: string, patterns: seq<string>)
    requires SafePatterns(patterns)
  {
    exists j :: 0 <= j < |patterns| && PatternMatchApplicationName(name, patterns[j])
  }

  /** Some installed product matches some exception pattern. */
  predicate ExceptionInstalled(installed: seq<Product>, exceptions: seq<string>)
    requires SafePatterns(exceptions)
  {
    exists i :: 0 <= i < |installed| && MatchesAny(installed[i].name, exceptions)
  }

  /** A product is to be uninstalled when it matches a target and no exception. */
  predicate Qualifies(name: string, targets: seq<string>, exceptions: seq<string>)
    requires SafePatterns(targets) && SafePatterns(exceptions)
  {
    MatchesAny(name, targets) && !MatchesAny(name, exceptions)
  }

  /** The qualifying products of the inventory, in inventory order. */
  function Selected(products: seq<Product>, targets: seq<string>, exceptions: seq<string>): seq<Product>
    requires SafePatterns(targets) && SafePatterns(exceptions)
    decreases |products|
  {
    if products == [] then []
    else
      var last := products[|products| - 1];
      Selected(products[..|products| - 1], targets, exceptions) +
      (if Qualifies(last.name, targets, exceptions) then [last] else [])
  }

  /** The inventory positions of the qualifying products, in increasing order. */
  function SelectedIndices(products: seq<Product>, targets: seq<string>, exceptions: seq<string>): seq<nat>
    requires SafePatterns(targets) && SafePatterns(exceptions)
    decreases |products|
  {
    if products == [] then []
    else
      var n := |products| - 1;
      SelectedIndices(products[..n], targets, exceptions) +
      (if Qualifies(products[n].name, targets, exceptions) then [n] else [])
  }

  /** The selection is the inventory restricted to strictly increasing
      positions, and a position is among them exactly when its product
      qualifies: an order-preserving subsequence holding every qualifying
      entry once and nothing else. */
  lemma {:induction false} SelectedIsOrderedSubsequence(products: seq<Product>, targets: seq<string>, exceptions: seq<string>)
    requires SafePatterns(targets) && SafePatterns(exceptions)
    ensures var sel := Selected(products, targets, exceptions);
      var idx := SelectedIndices(products, targets, exceptions);
      |idx| == |sel| &&
      (forall k :: 0 <= k < |idx| ==> idx[k] < |products| && sel[k] == products[idx[k]]) &&
      (forall k, l :: 0 <= k < l < |idx| ==> idx[k] < idx[l]) &&
      (forall i :: 0 <= i < |products| ==> (i in idx <==> Qualifies(products[i].name, targets, exceptions)))
    decreases |products|
  {
    if products != [] {
      var n := |products| - 1;
      var init := products[..n];
      SelectedIsOrderedSubsequence(init, targets, exceptions);
      var idx0 := SelectedIndices(init, targets, exceptions);
      assert forall k :: 0 <= k < |idx0| ==> idx0[k] < n;
      assert forall i :: 0 <= i < n ==> products[i] == init[i];
    }
  }

  /** Every selected product matches at least one target and no exception. */
  lemma SelectedAreSound(products: seq<Product>, targets: seq<string>, exceptions: seq<string>)
    requires SafePatterns(targets) && SafePatterns(exceptions)
    ensures forall p :: p in Selected(products, targets, exceptions) ==>
      p in products && MatchesAny(p.name, targets) && !MatchesAny(p.name, exceptions)
  {
    SelectedIsOrderedSubsequence(products, targets, exceptions);
    var sel := Selected(products, targets, exceptions);
    var idx := SelectedIndices(products, targets, exceptions);
    forall p | p in sel
      ensures p in products && Qualifies(p.name, targets, exceptions)
    {
      var k :| 0 <= k < |sel| && sel[k] == p;
      assert idx[k] in idx;
    }
  }

  /** Without exception patterns every product matching a target is selected. */
  lemma {:induction false} NoExceptionsSelectsAllMatches(products: seq<Product>, targets: seq<string>)
    requires SafePatterns(targets)
    ensures forall i :: 0 <= i < |products| && MatchesAny(products[i].name, targets) ==>
      products[i] in Selected(products, targets, [])
  {
    SelectedIsOrderedSubsequence(products, targets, []);
    var sel := Selected(products, targets, []);
    var idx := SelectedIndices(products, targets, []);
    forall i | 0 <= i < |products| && MatchesAny(products[i].name, targets)
      ensures products[i] in sel
    {
      assert i in idx;
      var k :| 0 <= k < |idx| && idx[k] == i;
      assert sel[k] == products[i];
    }
  }

  // ---------------------------------------------------------------------
  // The source's loops
  // ---------------------------------------------------------------------

  /** IsAtLeastOneExceptionIsInstalled: scans products, then exceptions,
      and stops at the first match. */
  method IsAtLeastOneExceptionIsInstalled(installedProducts: seq<Product>, exceptionsText: string)
    returns (found: bool)
    requires ValidPatternText(exceptionsText)
    ensures found <==> ExceptionInstalled(installedProducts, NamesOf(exceptionsText))
    ensures installedProducts == [] || NamesOf(exceptionsText) == [] ==> !found
  {
    var exceptions := SplitApplicationNames(exceptionsText);
    for i := 0 to |installedProducts|
      invariant forall i' :: 0 <= i' < i ==> !MatchesAny(installedProducts[i'].name, exceptions)
    {
      var installedProduct := installedProducts[i];
      for j := 0 to |exceptions|
        invariant forall j' :: 0 <= j' < j ==> !PatternMatchApplicationName(installedProduct.name, exceptions[j'])
      {
        if PatternMatchApplicationName(installedProduct.name, exceptions[j]) {
          return true;
        }
      }
    }
    return false;
  }

  /** GetProductsToUninstall: for each product the targets are tried in
      turn; at a matching target the product is added unless some exception
      matches it, and once added the remaining targets are skipped. */
  method GetProductsToUninstall(allInstalledProducts: seq<Product>, applicationName: string, exceptionsText: string)
    returns (productsToUninstall: seq<Product>)
    requires ValidPatternText(applicationName) && ValidPatternText(exceptionsText)
    ensures productsToUninstall == Selected(allInstalledProducts, NamesOf(applicationName), NamesOf(exceptionsText))
  {
    productsToUninstall := [];
    var productToFind := SplitApplicationNames(applicationName);
    var exceptions := SplitApplicationNames(exceptionsText);
    for i := 0 to |allInstalledProducts|
      invariant productsToUninstall == Selected(allInstalledProducts[..i], productToFind, exceptions)
    {
      var installedProduct := allInstalledProducts[i];
      var name := installedProduct.name;
      assert allInstalledProducts[..i + 1][..i] == allInstalledProducts[..i];
      ghost var before := productsToUninstall;
      ghost var added := false;
      var j := 0;
      while j < |productToFind|
        invariant 0 <= j <= |productToFind|
        invariant !added ==> productsToUninstall == before
        invariant !added ==> forall j' :: 0 <= j' < j && PatternMatchApplicationName(name, productToFind[j']) ==>
          MatchesAny(name, exceptions)
        invariant added ==> productsToUninstall == before + [installedProduct] && Qualifies(name, productToFind, exceptions)
      {
        if PatternMatchApplicationName(name, productToFind[j]) {
          var uninstallIt := MatchesNoException(name, exceptions);
          if uninstallIt {
            productsToUninstall := productsToUninstall + [installedProduct];
            added := true;
            break;
          }
        }
        j := j + 1;
      }
      assert !added ==> !Qualifies(name, productToFind, exceptions);
    }
    assert allInstalledProducts[..|allInstalledProducts|] == allInstalledProducts;
  }

  /** The exception loop of GetProductsToUninstall: uninstallIt starts
      true and is cleared, leaving the loop, at the first exception that
      matches the name. */
  method MatchesNoException(name: string, exceptions: seq<string>) returns (uninstallIt: bool)
    requires SafePatterns(exceptions)
    ensures uninstallIt <==> !MatchesAny(name, exceptions)
  {
    uninstallIt := true;
    var k := 0;
    while k < |exceptions|
      invariant 0 <= k <= |exceptions|
      invariant uninstallIt
      invariant forall k' :: 0 <= k' < k ==> !PatternMatchApplicationName(name, exceptions[k'])
    {
      if PatternMatchApplicationName(name, exceptions[k]) {
        uninstallIt := false;
        break;
      }
      k := k + 1;
    }
  }

  // ---------------------------------------------------------------------
  // The gate in Run
  // ---------------------------------------------------------------------

  /** What Run hands to UninstallProduct, in order: None when the gate
      stops the action before any selection, otherwise the selection. */
  function UninstallPlan(config: Config, installedProducts: seq<Product>): Option<seq<Product>>
    requires ValidPatternText(config.applicationName) && ValidPatternText(config.exceptions)
  {
    if !config.dontUninstallIfNoException || ExceptionInstalled(installedProducts, NamesOf(config.exceptions))
    then Some(Selected(installedProducts, NamesOf(config.applicationName), NamesOf(config.exceptions)))
    else None
  }

  /** Run: the selection only happens when DontUninstallIfNoException is
      unset or some exception is installed (the second test is evaluated
      only when the flag is set); each selected product is then uninstalled
      in turn. */
  method Run(config: Config, installedProducts: seq<Product>) returns (uninstalled: Option<seq<Product>>)
    requires ValidPatternText(config.applicationName) && ValidPatternText(config.exceptions)
    ensures uninstalled == UninstallPlan(config, installedProducts)
  {
    var proceed := !config.dontUninstallIfNoException;
    if !proceed {
      proceed := IsAtLeastOneExceptionIsInstalled(installedProducts, config.exceptions);
    }
    if proceed {
      var productsToUninstall := GetProductsToUninstall(installedProducts, config.applicationName, config.exceptions);
      var done: seq<Product> := [];
      for k := 0 to |productsToUninstall|
        invariant done == productsToUninstall[..k]
      {
        done := done + [productsToUninstall[k]];
      }
      assert productsToUninstall[..|productsToUninstall|] == productsToUninstall;
      uninstalled := Some(done);
    } else {
      uninstalled := None;
    }
  }

  /** The gate: selection is skipped exactly when the flag is set and no
      installed product matches an exception; when it runs, nothing that
      matches an exception is uninstalled. */
  lemma UninstallPlanGate(config: Config, installedProducts: seq<Product>)
    requires ValidPatternText(config.applicationName) && ValidPatternText(config.exceptions)
    ensures UninstallPlan(config, installedProducts).None? <==>
      config.dontUninstallIfNoException && !ExceptionInstalled(installedProducts, NamesOf(config.exceptions))
    ensures !config.dontUninstallIfNoException ==> UninstallPlan(config, installedProducts).Some?
    ensures config.dontUninstallIfNoException && NamesOf(config.exceptions) == [] ==>
      UninstallPlan(config, installedProducts) == None
    ensures UninstallPlan(config, installedProducts).Some? ==>
      forall p :: p in UninstallPlan(config, installedProducts).value ==>
        p in installedProducts && !MatchesAny(p.name, NamesOf(config.exceptions))
  {
    SelectedAreSound(installedProducts, NamesOf(config.applicationName), NamesOf(config.exceptions));
  }

  // ---------------------------------------------------------------------
  // Product codes and exit codes
  // ---------------------------------------------------------------------

  /** GetFormattedIdentifyingNumber: the 36 characters after the first one;
      String.Substring(1, 36) throws on a shorter input, modelled as None. */
  function GetFormattedIdentifyingNumber(identifyingNumber: string): (r: Option<string>)
    ensures r.Some? <==> |identifyingNumber| >= 37
    ensures r.Some? ==> |r.value| == 36 && r.value <= identifyingNumber[1..]
  {
    if |identifyingNumber| < 37 then None
    else Some(identifyingNumber[1..37])
  }

  /** The braced form "{GUID}" in which Windows Installer reports a product
      code, and which the uninstall command line rebuilds. */
  function Braced(guid: string): string
  {
    ['{'] + guid + ['}']
  }

  /** Stripping the braces of a 36-character code gives the code back, and
      bracing the stripped form of a braced code gives the input back. */
  lemma BracesRoundTrip(guid: string, identifyingNumber: string)
    ensures |guid| == 36 ==> GetFormattedIdentifyingNumber(Braced(guid)) == Some(guid)
    ensures |identifyingNumber| == 38 && identifyingNumber[0] == '{' && identifyingNumber[37] == '}' ==>
      GetFormattedIdentifyingNumber(identifyingNumber).Some? &&
      Braced(GetFormattedIdentifyingNumber(identifyingNumber).value) == identifyingNumber
  {
    if |guid| == 36 {
      assert Braced(guid)[1..37] == guid;
    }
  }

  /** How the exit code of msiexec is reported. */
  datatype UninstallOutcome = Success | SuccessRebootRequired | Failure(msiError: int)

  /** The switch on the exit code: 0 is a success, 3010 a success that
      needs a restart (ERROR_SUCCESS_REBOOT_REQUIRED), anything else an
      error carrying the code. */
  function ClassifyExitCode(exitCode: int): (r: UninstallOutcome)
    ensures r == Success <==> exitCode == 0
    ensures r == SuccessRebootRequired <==> exitCode == 3010
    ensures r.Failure? ==> r.msiError == exitCode
  {
    match exitCode
    case 0 => Success
    case 3010 => SuccessRebootRequired
    case _ => Failure(exitCode)
  }

  /** The exit code an outcome stands for. */
  function ExitCodeOf(outcome: UninstallOutcome): int
  {
    match outcome
    case Success => 0
    case SuccessRebootRequired => 3010
    case Failure(code) => code
  }

  /** The classification loses nothing: the code can be read back from the
      outcome, and every outcome the switch can produce is recovered. */
  lemma ClassifyExitCodeRoundTrip(exitCode: int, outcome: UninstallOutcome)
    ensures ExitCodeOf(ClassifyExitCode(exitCode)) == exitCode
    ensures (outcome.Failure? ==> outcome.msiError != 0 && outcome.msiError != 3010) ==>
      ClassifyExitCode(ExitCodeOf(outcome)) == outcome
  {
  }
}
