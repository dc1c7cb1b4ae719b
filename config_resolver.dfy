/**
 * ConfigResolver.GetConfigPath: pick the profile file for a server by a
 * first-match substring search over one directory listing. The listing is the
 * full paths Directory.GetFiles returned, in its own enumeration order, or
 * None when the directory does not exist.
 */
module ConfigResolver {
  import opened Wrappers
  import opened Text
  import FileSystem

  /**
   * The exits of GetConfigPath: the DirectoryNotFoundException that
   * Directory.GetFiles raises, and the two ConfigNotFoundException exits,
   * told apart by their messages.
   */
  datatype ResolveError =
    | DirectoryNotFound  // Directory.GetFiles on a missing directory
    | NoMatch            // "... the server cache may be out of date"
    | WhitespaceMatch    // "... the server cache may be out of date (whitespace)"

  /** files.Any(x => x.Contains(serverName)) */
  predicate AnyMatch(files: seq<string>, serverName: string)
  {
    exists i | 0 <= i < |files| :: Contains(files[i], serverName)
  }

  /** files.First(x => x.Contains(serverName)): the earliest listed path holding the key. */
  function FirstMatch(files: seq<string>, serverName: string): (r: string)
    requires AnyMatch(files, serverName)
    ensures exists i | 0 <= i < |files| :: files[i] == r && Contains(r, serverName)
                                         && forall j | 0 <= j < i :: !Contains(files[j], serverName)
    decreases |files|
  {
    if Contains(files[0], serverName) then files[0]
    else
      assert AnyMatch(files[1..], serverName) by {
        var i :| 0 <= i < |files| && Contains(files[i], serverName);
        assert files[1..][i - 1] == files[i];
      }
      var r := FirstMatch(files[1..], serverName);
      var i :| 0 <= i < |files[1..]| && files[1..][i] == r && Contains(r, serverName)
               && forall j | 0 <= j < i :: !Contains(files[1..][j], serverName);
      assert files[i + 1] == r;
      assert forall j | 0 <= j < i + 1 :: !Contains(files[j], serverName) by {
        forall j | 0 <= j < i + 1 ensures !Contains(files[j], serverName) {
          if j > 0 { assert files[j] == files[1..][j - 1]; }
        }
      }
      r
  }

  /**
   * ConfigResolver.GetConfigPath over `listing`: a missing directory fails
   * with DirectoryNotFound; no match fails with NoMatch; otherwise the first
   * match, unless it is empty or whitespace, which fails with WhitespaceMatch.
   */
  function GetConfigPath(listing: Option<seq<string>>, serverName: string): (r: Result<string, ResolveError>)
    ensures r == Err(DirectoryNotFound) <==> listing.None?
    ensures r == Err(NoMatch) <==>
              listing.Some? && forall i | 0 <= i < |listing.value| :: !Contains(listing.value[i], serverName)
    ensures r.Ok? ==>
              listing.Some? &&
              exists i | 0 <= i < |listing.value| :: listing.value[i] == r.value && Contains(r.value, serverName)
                                                   && forall j | 0 <= j < i :: !Contains(listing.value[j], serverName)
    ensures r.Ok? ==> !IsNullOrWhiteSpace(r.value)
    ensures r == Err(WhitespaceMatch) <==>
              listing.Some? &&
              exists i | 0 <= i < |listing.value| :: Contains(listing.value[i], serverName) && IsNullOrWhiteSpace(listing.value[i])
                                                   && forall j | 0 <= j < i :: !Contains(listing.value[j], serverName)
  {
    match listing
    case None => Err(DirectoryNotFound)
    case Some(files) =>
      if !AnyMatch(files, serverName) then Err(NoMatch)
      else
        var ovpnFn := FirstMatch(files, serverName);
        if IsNullOrWhiteSpace(ovpnFn) then Err(WhitespaceMatch) else Ok(ovpnFn)
  }

  /** Resolution succeeds with the path at index i exactly when i is the first match and that path is not blank. */
  lemma GetConfigPathAt(files: seq<string>, serverName: string, i: nat)
    requires i < |files| && Contains(files[i], serverName)
    requires forall j | 0 <= j < i :: !Contains(files[j], serverName)
    ensures GetConfigPath(Some(files), serverName) == if IsNullOrWhiteSpace(files[i]) then Err(WhitespaceMatch) else Ok(files[i])
  {
  }

  /** An empty cache directory never resolves. */
  lemma EmptyListingFails(serverName: string)
    ensures GetConfigPath(Some([]), serverName) == Err(NoMatch)
  {
  }

  /** A key held by exactly one listed path resolves to that path (unless it is blank). */
  lemma SingleMatch(files: seq<string>, serverName: string, i: nat)
    requires i < |files| && Contains(files[i], serverName)
    requires forall j | 0 <= j < |files| && j != i :: !Contains(files[j], serverName)
    ensures GetConfigPath(Some(files), serverName) == if IsNullOrWhiteSpace(files[i]) then Err(WhitespaceMatch) else Ok(files[i])
  {
    GetConfigPathAt(files, serverName, i);
  }

  /** With several matches, a later one is never chosen: the result sits at or before any matching position. */
  lemma LaterMatchNotChosen(files: seq<string>, serverName: string, i: nat)
    requires i < |files| && Contains(files[i], serverName)
    ensures GetConfigPath(Some(files), serverName).Ok? ==>
              exists j | 0 <= j <= i :: files[j] == GetConfigPath(Some(files), serverName).value
  {
  }

  /** The empty key matches every path, so it resolves to the first listed file. */
  lemma EmptyKeyPicksFirst(files: seq<string>)
    requires |files| > 0
    ensures GetConfigPath(Some(files), "") == if IsNullOrWhiteSpace(files[0]) then Err(WhitespaceMatch) else Ok(files[0])
  {
  }

  /**
   * Matching sees the full path: a key that occurs in the directory part
   * matches every file of that directory, so the first listed file wins.
   */
  lemma DirectoryPartMatchesAll(dir: string, names: seq<string>, serverName: string)
    requires |names| > 0 && Contains(dir, serverName)
    ensures var files := seq(|names|, i requires 0 <= i < |names| => FileSystem.Combine(dir, names[i]));
            GetConfigPath(Some(files), serverName) == Ok(files[0])
  {
    var files := seq(|names|, i requires 0 <= i < |names| => FileSystem.Combine(dir, names[i]));
    ContainsExtend(dir, "/" + names[0], serverName);
    assert FileSystem.Combine(dir, names[0]) == dir + ("/" + names[0]);
    GetConfigPathAt(files, serverName, 0);
    assert !IsWhiteSpace(files[0][|dir|]);
  }
}
