/**
 * The parts of the Git repository helpers that are decisions over strings:
 * the GitHub Actions URL derived from the remote, the "has local changes"
 * test on `git status --porcelain`, the folder a clone goes into, and which
 * repository the wizard works on.  Git itself is not modelled: its output is
 * a parameter.
 */
module Repo {
  import opened Wrappers
  import opened PyStr
  import opened Terminal
  import Menu
  import Util

  /** `git_output`: the command's output with trailing whitespace removed. */
  function GitOutput(raw: string): (r: string)
    ensures StartsWith(raw, r)
    ensures forall i :: |r| <= i < |raw| ==> IsSpace(raw[i])
    ensures r == [] || !IsSpace(r[|r| - 1])
  {
    RStrip(raw)
  }

  const GitHub: string := "https://github.com"
  const GitSuffix: string := ".git"
  const ActionsPath: string := "/actions"

  /**
   * `actions_url` given the raw output of `git remote get-url`: a GitHub
   * HTTPS remote, without one trailing `.git`, followed by `/actions`.
   */
  function ActionsUrl(rawRemote: string): (r: Option<string>)
    ensures r.Some? <==> StartsWith(GitOutput(rawRemote), GitHub)
    ensures r.Some? ==> StartsWith(r.value, GitHub) && EndsWith(r.value, ActionsPath)
  {
    var remote := GitOutput(rawRemote);
    if StartsWith(remote, GitHub) then
      var page := RemoveSuffix(remote, GitSuffix);
      PageKeepsGitHub(remote);
      StartsWithConcat(page, ActionsPath, GitHub);
      RemoveSuffixOfConcat(page, ActionsPath);
      Some(page + ActionsPath)
    else None
  }

  /** Removing `.git` from a GitHub URL leaves the `https://github.com` prefix: `.git` cannot overlap `.com`. */
  lemma PageKeepsGitHub(remote: string)
    requires StartsWith(remote, GitHub)
    ensures StartsWith(RemoveSuffix(remote, GitSuffix), GitHub)
  {
    var page := RemoveSuffix(remote, GitSuffix);
    assert remote[..|GitHub|] == GitHub;
    if EndsWith(remote, GitSuffix) {
      assert remote == page + GitSuffix;
      assert remote[|page|] == '.' && remote[|page| + 1] == 'g';
      assert forall i :: 0 <= i < |GitHub| ==> remote[i] == GitHub[i];
      assert |page| >= |GitHub|;
      assert page[..|GitHub|] == remote[..|GitHub|];
    }
  }

  lemma StartsWithConcat(s: string, t: string, prefix: string)
    requires StartsWith(s, prefix)
    ensures StartsWith(s + t, prefix)
  {
    assert (s + t)[..|prefix|] == s[..|prefix|];
  }

  /** A GitHub remote, with or without `.git` and a trailing newline, gives its `/actions` page. */
  lemma ActionsUrlOfGitHubRemote(path: string, raw: string)
    requires !EndsWith(GitHub + path, GitSuffix) && (|path| == 0 || !IsSpace(path[|path| - 1]))
    requires raw == GitHub + path || raw == GitHub + path + GitSuffix || raw == GitHub + path + GitSuffix + "\n"
    ensures ActionsUrl(raw) == Some(GitHub + path + ActionsPath)
  {
    var page := GitHub + path;
    assert !IsSpace(page[|page| - 1]);
    GitOutputOfRemote(page, raw);
    var remote := GitOutput(raw);
    assert page[..|GitHub|] == GitHub;
    StartsWithConcat(page, GitSuffix, GitHub);
    if remote == page + GitSuffix {
      RemoveSuffixOfConcat(page, GitSuffix);
    }
  }

  /** Git's trailing newline is stripped, and nothing else. */
  lemma GitOutputOfRemote(page: string, raw: string)
    requires |page| > 0 && !IsSpace(page[|page| - 1])
    requires raw == page || raw == page + GitSuffix || raw == page + GitSuffix + "\n"
    ensures raw == page ==> GitOutput(raw) == page
    ensures raw != page ==> GitOutput(raw) == page + GitSuffix
  {
    if raw == page + GitSuffix + "\n" {
      var u := page + GitSuffix;
      assert raw[..|raw| - 1] == u;
      assert RStrip(u) == u;
    }
  }

  /** An SSH remote has no Actions URL. */
  lemma SshRemoteHasNoActionsUrl(path: string)
    ensures ActionsUrl("git@github.com:" + path) == None
  {
    var raw := "git@github.com:" + path;
    var remote := GitOutput(raw);
    if |remote| >= |GitHub| {
      assert raw[0] == 'g' && remote[0] == raw[0];
      assert remote[..|GitHub|][0] == 'g';
    }
  }

  /** `has_changes`: the porcelain status, right-stripped, is not empty. */
  predicate HasChanges(rawStatus: string) {
    GitOutput(rawStatus) != ""
  }

  /** There are changes exactly when the status output holds a non-whitespace character. */
  lemma HasChangesMeans(rawStatus: string)
    ensures HasChanges(rawStatus) <==> exists i :: 0 <= i < |rawStatus| && !IsSpace(rawStatus[i])
  {
    var r := GitOutput(rawStatus);
    if r != "" {
      assert rawStatus[|r| - 1] == r[|r| - 1];
    }
  }

  // ------------------------------------------------------------ clone

  /** What `_clone_repo` does with the URL typed at its prompt. */
  datatype Clone = Clone(url: string, folder: string) | StopWizard

  /** The folder a clone goes into: the last `/` segment of the URL without one trailing `.git`. */
  function CloneFolder(url: string): (folder: string)
    ensures '/' !in folder
    ensures EndsWith(RemoveSuffix(url, GitSuffix), folder)
    ensures folder == RemoveSuffix(url, GitSuffix) || EndsWith(RemoveSuffix(url, GitSuffix), "/" + folder)
  {
    LastSegment(RemoveSuffix(url, GitSuffix), '/')
  }

  /** `_clone_repo` after its prompt: an empty URL stops the wizard, any other is cloned. */
  function CloneRepo(url: string): (r: Clone)
    ensures r.StopWizard? <==> url == ""
    ensures r.Clone? ==> r.url == url && r.folder == CloneFolder(url)
  {
    if url == "" then StopWizard else Clone(url, CloneFolder(url))
  }

  /** The folder is the repository name, whether or not the URL ends in `.git`. */
  lemma CloneFolderIsRepoName(base: string, name: string)
    requires '/' !in name && !EndsWith(name, GitSuffix)
    ensures CloneFolder(base + "/" + name) == name
    ensures CloneFolder(base + "/" + name + GitSuffix) == name
  {
    var u := base + "/" + name;
    RemoveSuffixOfConcat(u, GitSuffix);
    // the last four characters are either the name's own, or include the `/`
    if |name| >= |GitSuffix| {
      assert u[|u| - |GitSuffix|..] == name[|name| - |GitSuffix|..];
    } else if |u| >= |GitSuffix| {
      assert u[|u| - |GitSuffix|..][|GitSuffix| - |name| - 1] == '/';
    }
    assert !EndsWith(u, GitSuffix);
    LastSegmentAfterSeparator(base, name);
  }

  lemma LastSegmentAfterSeparator(base: string, name: string)
    requires '/' !in name
    ensures LastSegment(base + "/" + name, '/') == name
  {
    var u := base + "/" + name;
    assert u[|base|] == '/';
    match LastIndexOf(u, '/')
    case None =>
    case Some(k) =>
      assert u[|base| + 1..] == name;
  }

  // ------------------------------------------------------- choosing the repo

  const EditRepo: string := "Edit this repo"
  const CloneHere: string := "Clone a new repo here"
  const CancelOption: string := "Cancel"

  function OptionText(s: string): string {
    s
  }

  /** The menu `_should_use_current_directory` shows. */
  function OptionsMenu(): (m: Menu.Menu<string>)
    ensures m.items == [EditRepo, CloneHere, CancelOption] && m.defaultIndex == 0
  {
    Menu.Menu("Select an option:", [EditRepo, CloneHere, CancelOption], OptionText, Named(Green), 0)
  }

  /**
   * `_should_use_current_directory`: a directory that has both `build.yaml`
   * and `config/west.yml` is used without asking; otherwise the menu's
   * answer decides, and Cancel stops the wizard.
   */
  function ShouldUseCurrentDirectory(configFilesExist: bool, size: Menu.MenuSize, keys: seq<Key>): (r: Util.Flow<bool>)
    ensures configFilesExist ==> r == Util.Done(true, keys)
    ensures !configFilesExist ==>
      match Menu.ShowMenu(OptionsMenu(), size, keys)
      case Selected(i, rest) =>
        && (OptionsMenu().items[i] == EditRepo ==> r == Util.Done(true, rest))
        && (OptionsMenu().items[i] == CloneHere ==> r == Util.Done(false, rest))
        && (OptionsMenu().items[i] == CancelOption ==> r == Util.StopWizard(""))
      case Cancelled(_) => r == Util.StopMenu
      case _ => r == Util.AwaitingInput
  {
    if configFilesExist then Util.Done(true, keys)
    else
      var m := OptionsMenu();
      match Menu.ShowMenu(m, size, keys)
      case Selected(i, rest) =>
        var response := m.items[i];
        if response == EditRepo then Util.Done(true, rest)
        else if response == CloneHere then Util.Done(false, rest)
        else Util.StopWizard("")
      case Cancelled(_) => Util.StopMenu
      case IndexError => Util.MenuIndexError
      case NeedMoreInput => Util.AwaitingInput
  }

  /** Where the wizard's repository comes from. */
  datatype Source = Configured(path: string) | Current | Cloned(url: string, folder: string)

  /**
   * `select_repo`: a configured path wins; a Git repository in the current
   * directory is used if `_should_use_current_directory` agrees; otherwise
   * the repository typed at the prompt is cloned.  `typedUrl` is the line
   * read by `input()`.
   */
  function SelectRepo(
    repoPath: Option<string>, isRepo: bool, configFilesExist: bool,
    size: Menu.MenuSize, keys: seq<Key>, typedUrl: string): (r: Util.Flow<Source>)
    ensures repoPath.Some? && repoPath.value != "" ==> r == Util.Done(Configured(repoPath.value), keys)
    ensures (repoPath.None? || repoPath.value == "") && isRepo && configFilesExist ==> r == Util.Done(Current, keys)
    ensures (repoPath.None? || repoPath.value == "") && !isRepo ==>
      (typedUrl == "" <==> r == Util.StopWizard(""))
    ensures r.Done? && r.value.Cloned? ==> r.value.url == typedUrl != "" && r.value.folder == CloneFolder(typedUrl)
    ensures (repoPath.None? || repoPath.value == "") && !isRepo && typedUrl != "" ==>
      r == Util.Done(Cloned(typedUrl, CloneFolder(typedUrl)), keys)
    ensures (repoPath.None? || repoPath.value == "") && isRepo ==>
      var use := ShouldUseCurrentDirectory(configFilesExist, size, keys);
      && (use.Done? && use.value ==> r == Util.Done(Current, use.rest))
      && (use.Done? && !use.value && typedUrl != "" ==> r == Util.Done(Cloned(typedUrl, CloneFolder(typedUrl)), use.rest))
      && (use.Done? && !use.value && typedUrl == "" ==> r == Util.StopWizard(""))
      && (use.StopWizard? ==> r == Util.StopWizard(use.message))
      && (use.StopMenu? ==> r.StopMenu?)
      && (use.MenuIndexError? ==> r.MenuIndexError?)
      && (use.AwaitingInput? ==> r.AwaitingInput?)
  {
    if repoPath.Some? && repoPath.value != "" then Util.Done(Configured(repoPath.value), keys)
    else
      var use := if isRepo then ShouldUseCurrentDirectory(configFilesExist, size, keys) else Util.Done(false, keys);
      match use
      case Done(true, rest) => Util.Done(Current, rest)
      case Done(false, rest) =>
        (match CloneRepo(typedUrl)
         case StopWizard => Util.StopWizard("")
         case Clone(url, folder) => Util.Done(Cloned(url, folder), rest))
      case StopWizard(msg) => Util.StopWizard(msg)
      case StopMenu => Util.StopMenu
      case MenuIndexError => Util.MenuIndexError
      case AwaitingInput => Util.AwaitingInput
  }
}
