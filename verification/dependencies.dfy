/**
 Dependency validation (src/parser/mod.rs): the file names a document's
 `Required` header declares must carry the dialog extension and be distinct,
 and a cross-file transfer may only target a declared file.
 */
module Dependencies {
  import opened Strings
  import opened Model

  const Extension := ".bdl"

  /** `validate_dependency_file`: the name must end with `.bdl`. */
  function ValidateDependencyFile(file: string): (r: Result<()>)
    ensures r.Ok? <==> EndsWith(file, Extension)
    ensures r.Err? ==> r.error == DependencyError
  {
    if !EndsWith(file, Extension) then Err(DependencyError) else Ok(())
  }

  /** A name without any extension never passes the extension check. */
  lemma NameWithoutExtensionRejected(file: string)
    requires '.' !in file
    ensures ValidateDependencyFile(file) == Err(DependencyError)
  {
    if |file| >= |Extension| {
      assert file[|file| - 4] in file;
      assert file[|file| - 4..][0] == file[|file| - 4];
    }
  }

  /**
   `validate_dependencies`: check each declared name in order, collecting
   them into a set; a bad extension or a name already collected is an error.
   */
  function ValidateDependencies(deps: seq<string>): (r: Result<set<string>>)
    ensures r.Ok? <==> (forall i :: 0 <= i < |deps| ==> EndsWith(deps[i], Extension)) && NoDuplicates(deps)
    ensures r.Ok? ==> r.value == (set d | d in deps) && |r.value| == |deps|
    ensures r.Err? ==> r.error == DependencyError
    decreases |deps|
  {
    if deps == [] then Ok({})
    else
      var init := deps[..|deps| - 1];
      var dep := deps[|deps| - 1];
      assert deps == init + [dep];
      NoDuplicatesSnoc(init, dep);
      match ValidateDependencies(init)
      case Err(e) => Err(e)
      case Ok(validated) =>
        if ValidateDependencyFile(dep).Err? then Err(DependencyError)
        else if dep in validated then Err(DependencyError)
        else
          assert (set d | d in deps) == validated + {dep};
          Ok(validated + {dep})
  }

  /** `validate_file_transfer`: the target must pass the extension check and be declared. */
  function ValidateFileTransfer(file: string, dependencies: set<string>): (r: Result<()>)
    ensures r.Ok? <==> EndsWith(file, Extension) && file in dependencies
    ensures r.Err? ==> r.error == DependencyError
  {
    match ValidateDependencyFile(file)
    case Err(e) => Err(e)
    case Ok(_) => if file !in dependencies then Err(DependencyError) else Ok(())
  }

  /**
   Against the set validated from a `Required` list, a transfer is allowed
   exactly when its target is one of the declared names.
   */
  lemma TransferAllowedIffDeclared(required: seq<string>, file: string)
    requires ValidateDependencies(required).Ok?
    ensures ValidateFileTransfer(file, ValidateDependencies(required).value).Ok? <==> file in required
  {
    if file in required {
      var i :| 0 <= i < |required| && required[i] == file;
    }
  }

  /** Extension checks on single names. */
  lemma ExtensionExamples()
    ensures ValidateDependencyFile("module.bdl").Ok?
    ensures ValidateDependencyFile("module.txt").Err?
    ensures ValidateDependencyFile("module").Err?
  {
    NameWithoutExtensionRejected("module");
  }

  /** Two distinct `.bdl` names validate to a set of size two. */
  lemma DistinctDependenciesExample()
    ensures ValidateDependencies(["module1.bdl", "module2.bdl"]) == Ok({"module1.bdl", "module2.bdl"})
  {
    var deps := ["module1.bdl", "module2.bdl"];
    assert deps[0] != deps[1] by { assert deps[0][6] != deps[1][6]; }
    assert NoDuplicates(deps);
    assert (set d | d in deps) == {"module1.bdl", "module2.bdl"};
  }

  /** A repeated name or a wrong extension in the list is a dependency error. */
  lemma RejectedDependenciesExample()
    ensures ValidateDependencies(["module1.bdl", "module1.bdl"]) == Err(DependencyError)
    ensures ValidateDependencies(["module1.bdl", "module2.txt"]) == Err(DependencyError)
  {
    var dup := ["module1.bdl", "module1.bdl"];
    assert dup[0] == dup[1];
    var bad := ["module1.bdl", "module2.txt"];
    assert !EndsWith(bad[1], Extension) by { assert bad[1][8] != Extension[1]; }
  }

  /** An undeclared name or a wrong extension is not a valid transfer target. */
  lemma TransferExamples()
    ensures ValidateFileTransfer("module1.bdl", {"module1.bdl", "module2.bdl"}) == Ok(())
    ensures ValidateFileTransfer("module3.bdl", {"module1.bdl", "module2.bdl"}) == Err(DependencyError)
    ensures ValidateFileTransfer("module1.txt", {"module1.bdl", "module2.bdl"}) == Err(DependencyError)
  {
    assert "module3.bdl" != "module1.bdl" by { assert "module3.bdl"[6] != "module1.bdl"[6]; }
    assert "module3.bdl" != "module2.bdl" by { assert "module3.bdl"[6] != "module2.bdl"[6]; }
    assert !EndsWith("module1.txt", Extension) by { assert "module1.txt"[8] != Extension[1]; }
  }
}
