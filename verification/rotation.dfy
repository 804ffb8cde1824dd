/** The secret-rotation guard at the end of a successful run of `main`: the
    refreshed cookie string is pushed to the repository secret `ZEABUR_COOKIE`
    only when a repository token, an `owner/name` repository and a non-empty
    cookie string are all present. The upload itself (public-key fetch,
    sealed-box encryption, PUT) is represented only by the request. */
module Rotation {
  import opened Text

  const SecretName: string := "ZEABUR_COOKIE"
  /** The exit status of the handler that catches an exception in `main`. */
  const FailureStatus: int := 1

  datatype SecretUpdate =
    | Skipped
      /** `update_github_secret(token, owner, repo, secret, value)` is called. */
    | Requested(token: string, owner: string, repo: string, secret: string, value: string)
      /** `repo.split('/')` did not give two parts: the unpacking raises and the
          run ends with `status`. */
    | Aborted(status: int)

  /** The guard and unpacking in `main`. An unset variable is given as `""`:
      Python treats `None` and `''` alike in the test. */
  function Decide(repoToken: string, repository: string, newCookie: string): (r: SecretUpdate)
    ensures r.Skipped? <==> repoToken == [] || repository == [] || newCookie == []
    ensures r.Requested? <==> repoToken != [] && newCookie != [] && Count(repository, '/') == 1
    ensures r.Requested? ==>
              r.token == repoToken && r.secret == SecretName && r.value == newCookie &&
              r.owner + "/" + r.repo == repository && '/' !in r.owner && '/' !in r.repo
    ensures r.Aborted? ==> r.status == FailureStatus
  {
    if repoToken == [] || repository == [] || newCookie == [] then Skipped
    else
      var parts := Split(repository, '/');
      if |parts| == 2 then
        JoinSplit(repository, '/');
        assert Join(parts, "/") == parts[0] + "/" + parts[1];
        Requested(repoToken, parts[0], parts[1], SecretName, newCookie)
      else Aborted(FailureStatus)
  }

  /** Conversely, every `owner/name` repository (neither part holding `/`)
      with a token and a cookie string requests exactly that update. */
  lemma {:induction false} DecideRequests(repoToken: string, owner: string, repo: string, newCookie: string)
    requires repoToken != [] && newCookie != []
    requires '/' !in owner && '/' !in repo
    ensures Decide(repoToken, owner + "/" + repo, newCookie)
         == Requested(repoToken, owner, repo, SecretName, newCookie)
  {
    SplitJoin([owner, repo], '/');
    assert Join([owner, repo], ['/']) == owner + "/" + repo;
  }
}
