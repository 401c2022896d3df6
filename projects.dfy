/** Folder-to-project expansion of ca/projects.go. The project directory is a
    parameter: a function from a listing filter to the projects it returns, or
    None when the service or the listing call fails. */
module Projects {
  import opened Wrappers

  datatype Project = Project(projectId: string, lifecycleState: string)

  /** The project directory: the response to a `Projects.List` call with the
      given filter, or None on failure. */
  type Directory = string -> Option<seq<Project>>

  const FilterPrefix: string := "parent.type:folder parent.id:"

  /** The listing filter for the projects directly under a folder (ca/projects.go:35). */
  function ListFilter(folderID: string): (f: string)
    ensures |f| == |FilterPrefix| + |folderID|
    ensures f[..|FilterPrefix|] == FilterPrefix && f[|FilterPrefix|..] == folderID
  {
    FilterPrefix + folderID
  }

  /** Different folders get different filters. */
  lemma ListFilterInjective(a: string, b: string)
    requires ListFilter(a) == ListFilter(b)
    ensures a == b
  {
    assert a == ListFilter(a)[|FilterPrefix|..];
  }

  /** `getAllSubFoldersIDs` (ca/projects.go:52-53): it returns before any
      traversal, so a folder stands for itself alone. */
  function GetAllSubFoldersIDs(parentFolderID: string): (r: seq<string>)
    ensures |r| == 1 && r[0] == parentFolderID
  {
    [parentFolderID]
  }

  /** The IDs of the projects whose lifecycle state is "ACTIVE", in response order. */
  function ActiveIDs(projects: seq<Project>): seq<string> {
    if projects == [] then []
    else
      var p := projects[|projects| - 1];
      ActiveIDs(projects[..|projects| - 1]) + (if p.lifecycleState == "ACTIVE" then [p.projectId] else [])
  }

  /** The active filter keeps a project exactly when its state is "ACTIVE", and
      keeps response order: the IDs of an ordered split are the ordered join. */
  lemma {:induction false} ActiveIDsAppend(a: seq<Project>, b: seq<Project>)
    ensures ActiveIDs(a + b) == ActiveIDs(a) + ActiveIDs(b)
  {
    if b != [] {
      ActiveIDsAppend(a, b[..|b| - 1]);
      assert (a + b)[..|a + b| - 1] == a + b[..|b| - 1];
    } else {
      assert a + b == a;
    }
  }

  /** Whether the project at position `i` is an active project with ID `id`. */
  predicate ActiveAt(projects: seq<Project>, i: int, id: string) {
    0 <= i < |projects| && projects[i].projectId == id && projects[i].lifecycleState == "ACTIVE"
  }

  /** An ID is listed exactly when some active project carries it. */
  lemma {:induction false} ActiveIDsMembers(projects: seq<Project>, id: string)
    ensures id in ActiveIDs(projects) <==> exists i :: ActiveAt(projects, i, id)
  {
    if projects != [] {
      var n := |projects| - 1;
      var init := projects[..n];
      ActiveIDsMembers(init, id);
      var last := projects[n];
      assert ActiveIDs(projects) == ActiveIDs(init) + (if last.lifecycleState == "ACTIVE" then [last.projectId] else []);
      if id in ActiveIDs(projects) {
        if id in ActiveIDs(init) {
          var i :| ActiveAt(init, i, id);
          assert ActiveAt(projects, i, id);
        } else {
          assert ActiveAt(projects, n, id);
        }
      }
      if exists i :: ActiveAt(projects, i, id) {
        var i :| ActiveAt(projects, i, id);
        if i < n {
          assert ActiveAt(init, i, id);
        }
      }
    }
  }

  /** `getActiveProjectsIDsInFolder` (ca/projects.go:28-48): list the projects
      under the folder and keep the active ones; a failed listing is fatal
      (`log.Fatal`), modelled as None. */
  method GetActiveProjectsIDsInFolder(directory: Directory, folderID: string)
    returns (r: Option<seq<string>>)
    ensures directory(ListFilter(folderID)).None? ==> r.None?
    ensures directory(ListFilter(folderID)).Some? ==> r == Some(ActiveIDs(directory(ListFilter(folderID)).value))
  {
    var response := directory(ListFilter(folderID));
    if response.None? {
      return None;
    }
    var projects := response.value;
    var projectIds: seq<string> := [];
    for i := 0 to |projects|
      invariant projectIds == ActiveIDs(projects[..i])
    {
      assert projects[..i + 1][..i] == projects[..i];
      if projects[i].lifecycleState == "ACTIVE" {
        projectIds := projectIds + [projects[i].projectId];
      }
    }
    assert projects[..|projects|] == projects;
    return Some(projectIds);
  }

  /** The active projects of one folder as the directory reports them. */
  function FolderProjects(directory: Directory, folderID: string): Option<seq<string>> {
    match directory(ListFilter(folderID))
    case None => None
    case Some(projects) => Some(ActiveIDs(projects))
  }

  /** The concatenation, in folder order, of every folder's active projects, or
      None as soon as one folder's listing fails. */
  function ActiveProjectIDs(directory: Directory, folderIDs: seq<string>): Option<seq<string>> {
    if folderIDs == [] then Some([])
    else
      match ActiveProjectIDs(directory, folderIDs[..|folderIDs| - 1])
      case None => None
      case Some(before) =>
        match FolderProjects(directory, folderIDs[|folderIDs| - 1])
        case None => None
        case Some(last) => Some(before + last)
  }

  /** Whether the listing of the folder at position `i` fails. */
  predicate FailsAt(directory: Directory, folderIDs: seq<string>, i: int) {
    0 <= i < |folderIDs| && FolderProjects(directory, folderIDs[i]).None?
  }

  /** The expansion aborts exactly when the listing of some folder fails. */
  lemma {:induction false} ActiveProjectIDsFails(directory: Directory, folderIDs: seq<string>)
    ensures ActiveProjectIDs(directory, folderIDs).None? <==> exists i :: FailsAt(directory, folderIDs, i)
  {
    if folderIDs != [] {
      var n := |folderIDs| - 1;
      var init := folderIDs[..n];
      ActiveProjectIDsFails(directory, init);
      forall i | 0 <= i < n ensures FailsAt(directory, init, i) == FailsAt(directory, folderIDs, i) {
        assert init[i] == folderIDs[i];
      }
      assert FailsAt(directory, folderIDs, n) == FolderProjects(directory, folderIDs[n]).None?;
    }
  }

  /** The sum of the per-folder list lengths. */
  function TotalFolderProjects(directory: Directory, folderIDs: seq<string>): nat {
    if folderIDs == [] then 0
    else
      TotalFolderProjects(directory, folderIDs[..|folderIDs| - 1])
      + match FolderProjects(directory, folderIDs[|folderIDs| - 1])
        case None => 0
        case Some(ids) => |ids|
  }

  /** Nothing is de-duplicated across folders: a successful expansion is as long
      as all per-folder lists together. */
  lemma {:induction false} ActiveProjectIDsLength(directory: Directory, folderIDs: seq<string>)
    requires ActiveProjectIDs(directory, folderIDs).Some?
    ensures |ActiveProjectIDs(directory, folderIDs).value| == TotalFolderProjects(directory, folderIDs)
  {
    if folderIDs != [] {
      ActiveProjectIDsLength(directory, folderIDs[..|folderIDs| - 1]);
    }
  }

  /** One more folder extends a successful expansion by that folder's projects. */
  lemma ActiveProjectIDsSnoc(directory: Directory, folderIDs: seq<string>, folderID: string)
    ensures ActiveProjectIDs(directory, folderIDs + [folderID])
         == match ActiveProjectIDs(directory, folderIDs)
            case None => None
            case Some(before) =>
              match FolderProjects(directory, folderID)
              case None => None
              case Some(last) => Some(before + last)
  {
    assert (folderIDs + [folderID])[..|folderIDs|] == folderIDs;
  }

  /** Expanding two folder lists one after the other is expanding their join:
      results come in folder order. */
  lemma {:induction false} ActiveProjectIDsAppend(directory: Directory, a: seq<string>, b: seq<string>)
    requires ActiveProjectIDs(directory, a).Some? && ActiveProjectIDs(directory, b).Some?
    ensures ActiveProjectIDs(directory, a + b)
         == Some(ActiveProjectIDs(directory, a).value + ActiveProjectIDs(directory, b).value)
  {
    var x := ActiveProjectIDs(directory, a).value;
    if b == [] {
      assert a + b == a;
      assert x + [] == x;
    } else {
      var n := |b| - 1;
      var init := b[..n];
      assert b == init + [b[n]];
      assert a + b == (a + init) + [b[n]];
      ActiveProjectIDsSnoc(directory, init, b[n]);
      ActiveProjectIDsAppend(directory, a, init);
      ActiveProjectIDsSnoc(directory, a + init, b[n]);
      var y := ActiveProjectIDs(directory, init).value;
      var z := FolderProjects(directory, b[n]).value;
      assert x + (y + z) == (x + y) + z;
    }
  }

  /** `getActiveProjectIDs` (ca/projects.go:13-25): for each folder and each of its
      sub-folders, append that folder's active projects. */
  method GetActiveProjectIDs(directory: Directory, folderIDs: seq<string>)
    returns (r: Option<seq<string>>)
    ensures r == ActiveProjectIDs(directory, folderIDs)
  {
    var projectIDs: seq<string> := [];
    for i := 0 to |folderIDs|
      invariant ActiveProjectIDs(directory, folderIDs[..i]) == Some(projectIDs)
    {
      assert folderIDs[..i + 1][..i] == folderIDs[..i];
      var subFoldersIDs := GetAllSubFoldersIDs(folderIDs[i]);
      for j := 0 to |subFoldersIDs|
        invariant j == 0 ==> ActiveProjectIDs(directory, folderIDs[..i]) == Some(projectIDs)
        invariant j == 1 ==> ActiveProjectIDs(directory, folderIDs[..i + 1]) == Some(projectIDs)
      {
        var found := GetActiveProjectsIDsInFolder(directory, subFoldersIDs[j]);
        if found.None? {
          assert FailsAt(directory, folderIDs, i);
          ActiveProjectIDsFails(directory, folderIDs);
          return None;
        }
        projectIDs := projectIDs + found.value;
      }
    }
    assert folderIDs[..|folderIDs|] == folderIDs;
    return Some(projectIDs);
  }
}
