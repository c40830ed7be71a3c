/** Client configuration files, one per directory and peer name
    (internal/clientfile/clientfile.go). */
module ClientFile {
  import opened Common

  type Files = map<(string, string), string>

  /** The first directory that has the file decides. */
  function LoadFrom(files: Files, dirs: seq<string>, name: string): Option<string>
    decreases |dirs|
  {
    if dirs == [] then None
    else if dirs[0] != "" && (dirs[0], name) in files then Some(files[(dirs[0], name)])
    else LoadFrom(files, dirs[1..], name)
  }

  function SaveIn(files: Files, dir: string, name: string, content: string): Files {
    if dir == "" then files else files[(dir, name) := content]
  }

  function SaveInAll(files: Files, dirs: seq<string>, name: string, content: string): Files
    decreases |dirs|
  {
    if dirs == [] then files else SaveInAll(SaveIn(files, dirs[0], name, content), dirs[1..], name, content)
  }

  function RemoveFrom(files: Files, dirs: seq<string>, name: string): Files
    decreases |dirs|
  {
    if dirs == [] then files
    else RemoveFrom(if dirs[0] == "" then files else files - {(dirs[0], name)}, dirs[1..], name)
  }

  class FileSystem {
    var files: Files

    constructor ()
      ensures files == map[]
    {
      files := map[];
    }

    method Load(dirs: seq<string>, name: string) returns (content: Option<string>)
      ensures content == LoadFrom(files, dirs, name)
    {
      for i := 0 to |dirs|
        invariant LoadFrom(files, dirs[i..], name) == LoadFrom(files, dirs, name)
      {
        if dirs[i] == "" {
          continue;
        }
        if (dirs[i], name) in files {
          return Some(files[(dirs[i], name)]);
        }
      }
      content := None;
    }

    method Save(dir: string, name: string, content: string)
      modifies this
      ensures files == SaveIn(old(files), dir, name, content)
    {
      if dir == "" {
        return;
      }
      files := files[(dir, name) := content];
    }

    method SaveAll(dirs: seq<string>, name: string, content: string)
      modifies this
      ensures files == SaveInAll(old(files), dirs, name, content)
    {
      for i := 0 to |dirs|
        invariant SaveInAll(files, dirs[i..], name, content) == SaveInAll(old(files), dirs, name, content)
      {
        Save(dirs[i], name, content);
      }
    }

    method Remove(dirs: seq<string>, name: string)
      modifies this
      ensures files == RemoveFrom(old(files), dirs, name)
    {
      for i := 0 to |dirs|
        invariant RemoveFrom(files, dirs[i..], name) == RemoveFrom(old(files), dirs, name)
      {
        if dirs[i] == "" {
          continue;
        }
        files := files - {(dirs[i], name)};
      }
    }
  }

  // ---- what is read back ---------------------------------------------------

  /** Every directory in use has exactly this text for the peer. */
  ghost predicate SavedEverywhere(files: Files, dirs: seq<string>, name: string, content: string) {
    forall i :: 0 <= i < |dirs| && dirs[i] != "" ==>
      (dirs[i], name) in files && files[(dirs[i], name)] == content
  }

  lemma {:induction false} SavedStays(files: Files, dirs: seq<string>, name: string, content: string, dir: string)
    ensures (dir, name) in files && files[(dir, name)] == content ==>
              (dir, name) in SaveInAll(files, dirs, name, content)
              && SaveInAll(files, dirs, name, content)[(dir, name)] == content
    decreases |dirs|
  {
    if dirs != [] {
      SavedStays(SaveIn(files, dirs[0], name, content), dirs[1..], name, content, dir);
    }
  }

  lemma {:induction false} SaveReachesAll(files: Files, dirs: seq<string>, name: string, content: string)
    ensures SavedEverywhere(SaveInAll(files, dirs, name, content), dirs, name, content)
    decreases |dirs|
  {
    if dirs != [] {
      var next := SaveIn(files, dirs[0], name, content);
      SaveReachesAll(next, dirs[1..], name, content);
      SavedStays(next, dirs[1..], name, content, dirs[0]);
      forall i | 0 < i < |dirs| ensures dirs[i] == dirs[1..][i - 1] {}
    }
  }

  lemma {:induction false} SaveTouchesOne(files: Files, dirs: seq<string>, name: string, content: string,
                                          key: (string, string))
    requires key.1 != name || key.0 == "" || key.0 !in dirs
    ensures key in SaveInAll(files, dirs, name, content) <==> key in files
    ensures key in files ==> SaveInAll(files, dirs, name, content)[key] == files[key]
    decreases |dirs|
  {
    if dirs != [] {
      SaveTouchesOne(SaveIn(files, dirs[0], name, content), dirs[1..], name, content, key);
    }
  }

  lemma {:induction false} RemoveTouchesOne(files: Files, dirs: seq<string>, name: string, key: (string, string))
    requires key.1 != name || key.0 == "" || key.0 !in dirs
    ensures key in RemoveFrom(files, dirs, name) <==> key in files
    ensures key in files ==> RemoveFrom(files, dirs, name)[key] == files[key]
    decreases |dirs|
  {
    if dirs != [] {
      RemoveTouchesOne(if dirs[0] == "" then files else files - {(dirs[0], name)}, dirs[1..], name, key);
    }
  }

  lemma {:induction false} LoadsWhatWasSaved(files: Files, dirs: seq<string>, name: string, content: string)
    requires SavedEverywhere(files, dirs, name, content)
    ensures LoadFrom(files, dirs, name) in {None, Some(content)}
    decreases |dirs|
  {
    if dirs != [] {
      forall i | 0 < i < |dirs| ensures dirs[1..][i - 1] == dirs[i] {}
      LoadsWhatWasSaved(files, dirs[1..], name, content);
    }
  }

  /** The first directory in use that has the file decides what is loaded; without
      one there is nothing. */
  lemma {:induction false} LoadsFromFirst(files: Files, dirs: seq<string>, name: string)
    ensures LoadFrom(files, dirs, name).None? <==>
            forall i :: 0 <= i < |dirs| && dirs[i] != "" ==> (dirs[i], name) !in files
    ensures LoadFrom(files, dirs, name).Some? ==>
              exists i :: 0 <= i < |dirs| && dirs[i] != "" && (dirs[i], name) in files
                          && LoadFrom(files, dirs, name).value == files[(dirs[i], name)]
                          && forall j :: 0 <= j < i && dirs[j] != "" ==> (dirs[j], name) !in files
    decreases |dirs|
  {
    if dirs != [] {
      LoadsFromFirst(files, dirs[1..], name);
      if LoadFrom(files, dirs, name).Some? && (dirs[0] == "" || (dirs[0], name) !in files) {
        var i :| 0 <= i < |dirs[1..]| && dirs[1..][i] != "" && (dirs[1..][i], name) in files
                 && LoadFrom(files, dirs, name).value == files[(dirs[1..][i], name)]
                 && forall j :: 0 <= j < i && dirs[1..][j] != "" ==> (dirs[1..][j], name) !in files;
        assert dirs[i + 1] == dirs[1..][i];
        assert forall j :: 0 < j < i + 1 ==> dirs[j] == dirs[1..][j - 1];
      }
    }
  }

  /** After a removal no directory has the file, so nothing is loaded. */
  lemma {:induction false} NothingAfterRemove(files: Files, dirs: seq<string>, name: string)
    ensures LoadFrom(RemoveFrom(files, dirs, name), dirs, name) == None
    decreases |dirs|
  {
    RemovedEverywhere(files, dirs, name);
    LoadsNothing(RemoveFrom(files, dirs, name), dirs, name);
  }

  lemma {:induction false} RemovedEverywhere(files: Files, dirs: seq<string>, name: string)
    ensures forall i :: 0 <= i < |dirs| && dirs[i] != "" ==> (dirs[i], name) !in RemoveFrom(files, dirs, name)
    ensures RemoveFrom(files, dirs, name).Keys <= files.Keys
    decreases |dirs|
  {
    if dirs != [] {
      forall i | 0 < i < |dirs| ensures dirs[1..][i - 1] == dirs[i] {}
      RemovedEverywhere(if dirs[0] == "" then files else files - {(dirs[0], name)}, dirs[1..], name);
    }
  }

  lemma {:induction false} LoadsNothing(files: Files, dirs: seq<string>, name: string)
    requires forall i :: 0 <= i < |dirs| && dirs[i] != "" ==> (dirs[i], name) !in files
    ensures LoadFrom(files, dirs, name) == None
    decreases |dirs|
  {
    if dirs != [] {
      forall i | 0 < i < |dirs| ensures dirs[1..][i - 1] == dirs[i] {}
      LoadsNothing(files, dirs[1..], name);
    }
  }

  /** Two file maps agree on one peer's files. */
  ghost predicate AgreeOn(a: Files, b: Files, name: string) {
    forall k: (string, string) :: k.1 == name ==> (k in a <==> k in b) && (k in a && k in b ==> a[k] == b[k])
  }

  lemma {:induction false} LoadsAlike(a: Files, b: Files, dirs: seq<string>, name: string)
    requires AgreeOn(a, b, name)
    ensures LoadFrom(a, dirs, name) == LoadFrom(b, dirs, name)
    decreases |dirs|
  {
    if dirs != [] {
      var key := (dirs[0], name);
      assert key.1 == name;
      LoadsAlike(a, b, dirs[1..], name);
    }
  }

  /** A file that could be loaded before is loaded with its new text after a save. */
  lemma {:induction false} LoadAfterSave(files: Files, dirs: seq<string>, name: string, content: string)
    requires LoadFrom(files, dirs, name).Some?
    ensures LoadFrom(SaveInAll(files, dirs, name, content), dirs, name) == Some(content)
  {
    var saved := SaveInAll(files, dirs, name, content);
    SaveReachesAll(files, dirs, name, content);
    LoadsWhatWasSaved(saved, dirs, name, content);
    var i := UsedDirectory(files, dirs, name);
    FindsUsedDirectory(saved, dirs, name, i);
  }

  lemma {:induction false} UsedDirectory(files: Files, dirs: seq<string>, name: string) returns (i: nat)
    requires LoadFrom(files, dirs, name).Some?
    ensures i < |dirs| && dirs[i] != ""
    decreases |dirs|
  {
    if dirs[0] != "" {
      i := 0;
    } else {
      var k := UsedDirectory(files, dirs[1..], name);
      i := k + 1;
    }
  }

  lemma {:induction false} FindsUsedDirectory(files: Files, dirs: seq<string>, name: string, i: nat)
    requires i < |dirs| && dirs[i] != "" && (dirs[i], name) in files
    ensures LoadFrom(files, dirs, name).Some?
    decreases |dirs|
  {
    if i > 0 {
      FindsUsedDirectory(files, dirs[1..], name, i - 1);
    }
  }
}
