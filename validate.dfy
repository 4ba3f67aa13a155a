/**
  The `validate CONFIGDIR` command: every YAML secret file of a directory
  is loaded and each of its configs is put through a decryption check.

  The collaborators the command calls are parameters, gathered in `Env`:
  directory listing, path joining, the YAML-extension regexp, the config
  loader and the key-management decryption (only its success matters).
  Console output is modelled by what it reports: the names handed to the
  per-file check and the keys reported invalid.
 */
module Validate {
  import opened Secrets

  datatype Option<T> = None | Some(value: T)

  /** The outside world of the command. */
  datatype Env = Env(
    // ioutil.ReadDir: the entry names, or None when the directory cannot be read
    readDir: string -> Option<seq<string>>,
    // filepath.Join
    join: (string, string) -> string,
    // yamlExtRegexp.Match
    isYamlName: string -> bool,
    // lib.LoadConfigYAML: the configs of a file, or None when it cannot be loaded
    loadConfigs: string -> Option<seq<Secret>>,
    // aws.KMS().DecryptBase64(key, value) returned no error
    decrypts: (string, string) -> bool)

  /** Why one file failed validation. */
  datatype FileError = LoadFailed | SomeConfigsInvalid

  /** Why the command failed. */
  datatype RunError =
    | MissingConfigDir
    | ReadDirFailed(dirname: string)
    | ValidateFailed(filename: string, cause: FileError)

  // ---------------------------------------------------------------------
  // validateFile
  // ---------------------------------------------------------------------

  /** The positions of the configs that fail decryption. */
  function FailingPositions(configs: seq<Secret>, decrypts: (string, string) -> bool): set<int>
  {
    set i | 0 <= i < |configs| && !decrypts(configs[i].key, configs[i].value)
  }

  /** The keys of the configs, in config order. */
  function KeySeq(configs: seq<Secret>): (r: seq<string>)
    ensures |r| == |configs| && forall i :: 0 <= i < |configs| ==> r[i] == configs[i].key
  {
    seq(|configs|, i requires 0 <= i < |configs| => configs[i].key)
  }

  /** The keys of the configs that fail decryption, in config order, one per
      failing config. */
  function InvalidKeys(configs: seq<Secret>, decrypts: (string, string) -> bool): (r: seq<string>)
    ensures forall k :: k in r <==> exists c :: c in configs && c.key == k && !decrypts(c.key, c.value)
    ensures r == [] <==> forall c :: c in configs ==> decrypts(c.key, c.value)
    ensures |r| <= |configs|
  {
    if configs == [] then []
    else
      var init, c := configs[..|configs| - 1], configs[|configs| - 1];
      assert configs == init + [c];
      var rest := InvalidKeys(init, decrypts);
      if decrypts(c.key, c.value) then rest else rest + [c.key]
  }

  /** Exactly one report per failing config. */
  lemma {:induction false} InvalidKeysOnePerFailure(configs: seq<Secret>, decrypts: (string, string) -> bool)
    ensures |InvalidKeys(configs, decrypts)| == |FailingPositions(configs, decrypts)|
  {
    if configs != [] {
      var n := |configs| - 1;
      var init, c := configs[..n], configs[n];
      InvalidKeysOnePerFailure(init, decrypts);
      var before, after := FailingPositions(init, decrypts), FailingPositions(configs, decrypts);
      assert n !in before;
      if decrypts(c.key, c.value) {
        assert after == before;
      } else {
        assert after == before + {n};
      }
    }
  }

  /** The reports follow the order of the configs. */
  lemma {:induction false} InvalidKeysInConfigOrder(configs: seq<Secret>, decrypts: (string, string) -> bool)
    ensures IsSubsequence(InvalidKeys(configs, decrypts), KeySeq(configs))
  {
    if configs != [] {
      var init := configs[..|configs| - 1];
      InvalidKeysInConfigOrder(init, decrypts);
      assert KeySeq(configs)[..|configs| - 1] == KeySeq(init);
      var r := InvalidKeys(configs, decrypts);
      if !decrypts(configs[|configs| - 1].key, configs[|configs| - 1].value) {
        assert r[..|r| - 1] == InvalidKeys(init, decrypts);
      }
    }
  }

  /** What validateFile returns for a file. */
  function FileResult(env: Env, filename: string): (r: Option<FileError>)
    ensures r.None? <==>
              env.loadConfigs(filename).Some? &&
              forall c :: c in env.loadConfigs(filename).value ==> env.decrypts(c.key, c.value)
    ensures r == Some(LoadFailed) <==> env.loadConfigs(filename).None?
  {
    match env.loadConfigs(filename)
    case None => Some(LoadFailed)
    case Some(configs) =>
      if InvalidKeys(configs, env.decrypts) == [] then None else Some(SomeConfigsInvalid)
  }

  /** `validateFile`: load the file, then try to decrypt every config; a
      failing config is reported and the loop goes on. `attempted` is the
      sequence of decryption calls made, `reported` the keys reported
      invalid. */
  method ValidateFile(env: Env, filename: string)
    returns (err: Option<FileError>, attempted: seq<Secret>, reported: seq<string>)
    ensures err == FileResult(env, filename)
    ensures env.loadConfigs(filename).None? ==> attempted == [] && reported == []
    ensures env.loadConfigs(filename).Some? ==>
              attempted == env.loadConfigs(filename).value &&
              reported == InvalidKeys(attempted, env.decrypts) &&
              (err.None? <==> reported == [])
  {
    var loaded := env.loadConfigs(filename);
    if loaded.None? {
      return Some(LoadFailed), [], [];
    }
    var configs := loaded.value;

    var hasError := false;
    attempted, reported := [], [];
    for i := 0 to |configs|
      invariant attempted == configs[..i]
      invariant reported == InvalidKeys(configs[..i], env.decrypts)
      invariant hasError <==> reported != []
    {
      assert configs[..i + 1][..i] == configs[..i];
      var config := configs[i];
      attempted := attempted + [config];
      if !env.decrypts(config.key, config.value) {
        reported := reported + [config.key];
        hasError := true;
      }
    }
    assert configs[..|configs|] == configs;

    if hasError {
      err := Some(SomeConfigsInvalid);
    } else {
      err := None;
    }
  }

  // ---------------------------------------------------------------------
  // validateCmd.RunE
  // ---------------------------------------------------------------------

  /** `strings.HasPrefix`. */
  predicate HasPrefix(s: string, prefix: string)
  {
    |prefix| <= |s| && s[..|prefix|] == prefix
  }

  /** Dotfiles and names without a YAML extension are not secret files. */
  predicate Skipped(env: Env, name: string): (r: bool)
    ensures r <==> (|name| > 0 && name[0] == '.') || !env.isYamlName(name)
  {
    HasPrefix(name, ".") || !env.isYamlName(name)
  }

  /** The directory entries that are secret files, in listing order. */
  function QualifyingNames(env: Env, names: seq<string>): (r: seq<string>)
    ensures forall n :: n in r <==> n in names && !Skipped(env, n)
    ensures |r| <= |names|
  {
    if names == [] then []
    else
      var init, n := names[..|names| - 1], names[|names| - 1];
      assert names == init + [n];
      var rest := QualifyingNames(env, init);
      if Skipped(env, n) then rest else rest + [n]
  }

  /** Filtering a prefix of the listing gives a prefix of the filtered listing. */
  lemma {:induction false} QualifyingNamesOfPrefix(env: Env, names: seq<string>, i: int)
    requires 0 <= i <= |names|
    ensures QualifyingNames(env, names[..i]) <= QualifyingNames(env, names)
    decreases |names|
  {
    if i < |names| {
      var init := names[..|names| - 1];
      assert names[..i] == init[..i];
      QualifyingNamesOfPrefix(env, init, i);
    } else {
      assert names[..i] == names;
    }
  }

  /** The file behind a directory entry validates. */
  predicate FileValid(env: Env, dirname: string, name: string)
  {
    FileResult(env, env.join(dirname, name)).None?
  }

  /** The loop of `validateCmd.RunE` over the directory entries: skips the
      entries that are not secret files and stops at the first secret file
      that fails validation. `validated` is the sequence of entries handed
      to validateFile. */
  method ValidateEntries(env: Env, dirname: string, names: seq<string>)
    returns (err: Option<RunError>, validated: seq<string>)
    ensures validated <= QualifyingNames(env, names)
    ensures forall n :: n in validated ==> !Skipped(env, n)
    ensures forall i :: 0 <= i < |validated| - 1 ==> FileValid(env, dirname, validated[i])
    ensures err.None? <==> forall n :: n in QualifyingNames(env, names) ==> FileValid(env, dirname, n)
    ensures err.None? ==> validated == QualifyingNames(env, names)
    ensures err.Some? ==>
              && validated != []
              && var last := env.join(dirname, validated[|validated| - 1]);
              && FileResult(env, last).Some?
              && err == Some(ValidateFailed(last, FileResult(env, last).value))
  {
    validated, err := [], None;
    ghost var scanned := |names|;
    for i := 0 to |names|
      invariant validated == QualifyingNames(env, names[..i])
      invariant forall n :: n in validated ==> FileValid(env, dirname, n)
    {
      assert names[..i + 1][..i] == names[..i];
      var name := names[i];
      if Skipped(env, name) {
        continue;
      }

      var filename := env.join(dirname, name);
      var fileErr, _, _ := ValidateFile(env, filename);
      validated := validated + [name];
      if fileErr.Some? {
        err := Some(ValidateFailed(filename, fileErr.value));
        scanned := i + 1;
        break;
      }
    }
    assert names[..|names|] == names;
    QualifyingNamesOfPrefix(env, names, scanned);
    if err.Some? {
      assert validated[|validated| - 1] in QualifyingNames(env, names);
    }
  }

  /** `validateCmd.RunE`: a missing argument or an unreadable directory
      fails before any file is examined; otherwise the entries are checked
      by ValidateEntries. */
  method Run(env: Env, args: seq<string>) returns (err: Option<RunError>, validated: seq<string>)
    ensures |args| == 0 ==> err == Some(MissingConfigDir) && validated == []
    ensures |args| > 0 && env.readDir(args[0]).None? ==>
              err == Some(ReadDirFailed(args[0])) && validated == []
    ensures |args| > 0 && env.readDir(args[0]).Some? ==>
              var dirname, files := args[0], QualifyingNames(env, env.readDir(args[0]).value);
              && validated <= files
              && (forall n :: n in validated ==> !Skipped(env, n))
              && (forall i :: 0 <= i < |validated| - 1 ==> FileValid(env, dirname, validated[i]))
              && (err.None? <==> forall n :: n in files ==> FileValid(env, dirname, n))
              && (err.None? ==> validated == files)
              && (err.Some? ==>
                    && validated != []
                    && var last := env.join(dirname, validated[|validated| - 1]);
                    && FileResult(env, last).Some?
                    && err == Some(ValidateFailed(last, FileResult(env, last).value)))
  {
    if |args| < 1 {
      return Some(MissingConfigDir), [];
    }
    var dirname := args[0];

    var listing := env.readDir(dirname);
    if listing.None? {
      return Some(ReadDirFailed(dirname)), [];
    }

    err, validated := ValidateEntries(env, dirname, listing.value);
  }
}
