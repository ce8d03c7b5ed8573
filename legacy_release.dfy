/** The older release script at the root of the repository (release.py): four
    commit keywords (no `docs`), unmatched messages dropped from the buckets,
    and a check over the raw log, newest first. Tags, versions and the changelog
    order are as in tools/release.py. */
module LegacyRelease {
  import opened Wrappers
  import Strings
  import CommitLog
  import Versioning
  import Collections

  /** `CategoryKeywords`: changelog category and commit keyword, in order. */
  const CategoryKeywords: seq<(string, string)> := [
    ("Features", "feature"), ("Bugfixes", "bugfix"), ("Internal", "internal"), ("Tooling", "tooling")]

  /** The alternation of `CommitMessageRegex`: the keywords of the table. */
  const Keywords: seq<string> := ["feature", "bugfix", "internal", "tooling"]

  lemma KeywordsOfTable()
    ensures Keywords == CommitLog.Values(CategoryKeywords)
  {
  }

  const ChangelogCategories: seq<string> := ["Features", "Bugfixes", "Internal"]

  /** `_CommitsByCategory`: a bucket per keyword only. */
  type Buckets = map<string, seq<string>>

  /** Lookup in the `defaultdict`: a missing bucket is empty. */
  function Get(buckets: Buckets, key: string): seq<string>
  {
    if key in buckets then buckets[key] else []
  }

  /** `buckets` hold exactly the keyword buckets that `commits` create. */
  ghost predicate BucketsOf(buckets: Buckets, commits: seq<string>)
  {
    && (forall k :: k in buckets <==> Some(k) in CommitLog.Keys(Keywords, commits))
    && (forall k :: k in buckets ==> buckets[k] == CommitLog.Bucket(Keywords, commits, Some(k)))
  }

  /** A next message that matches `k` is appended to the bucket of `k`, which
      gives the buckets of the longer log. */
  lemma FileMatched(buckets: Buckets, commits: seq<string>, i: nat, k: string)
    requires i < |commits| && BucketsOf(buckets, commits[..i])
    requires CommitLog.Key(Keywords, commits[i]) == Some(k)
    ensures BucketsOf(buckets[k := Get(buckets, k) + [CommitLog.Entry(Keywords, commits[i])]], commits[..i + 1])
  {
    CommitLog.FiledSnoc(Keywords, commits, i);
    var after := buckets[k := Get(buckets, k) + [CommitLog.Entry(Keywords, commits[i])]];
    forall j | j in after ensures after[j] == CommitLog.Bucket(Keywords, commits[..i + 1], Some(j)) {
      if j == k && k !in buckets {
        CommitLog.BucketEmpty(Keywords, commits[..i], Some(k));
      }
    }
  }

  /** A next message that does not match is dropped: the buckets are those of the
      longer log already. */
  lemma FileUnmatched(buckets: Buckets, commits: seq<string>, i: nat)
    requires i < |commits| && BucketsOf(buckets, commits[..i])
    requires CommitLog.Key(Keywords, commits[i]) == None
    ensures BucketsOf(buckets, commits[..i + 1])
  {
    CommitLog.FiledSnoc(Keywords, commits, i);
  }

  /** `_commits_by_category`: every matching message is appended, in order, to
      the bucket of its keyword; the others are dropped. A bucket exists exactly
      for the keywords that occur. */
  method CommitsByCategory(commits: seq<string>) returns (r: Buckets)
    ensures forall k :: k in r <==> Some(k) in CommitLog.Keys(Keywords, commits)
    ensures forall k :: k in r ==> r[k] == CommitLog.Bucket(Keywords, commits, Some(k))
    ensures forall k :: Get(r, k) == CommitLog.Bucket(Keywords, commits, Some(k))
  {
    r := map[];
    var i := 0;
    while i < |commits|
      invariant 0 <= i <= |commits|
      invariant BucketsOf(r, commits[..i])
    {
      var msg := commits[i];
      var matched := CommitLog.Classify(Keywords, msg);
      if matched.Some? {
        var key := matched.value.0;
        assert CommitLog.Key(Keywords, msg) == Some(key) && CommitLog.Entry(Keywords, msg) == matched.value.1;
        FileMatched(r, commits, i, key);
        r := r[key := Get(r, key) + [matched.value.1]];
      } else {
        assert CommitLog.Key(Keywords, msg) == None;
        FileUnmatched(r, commits, i);
      }
      i := i + 1;
    }
    assert commits[..i] == commits;
    forall k | k !in r ensures CommitLog.Bucket(Keywords, commits, Some(k)) == [] {
      CommitLog.BucketEmpty(Keywords, commits, Some(k));
    }
  }

  /** The log subjects as `git log` prints them, newest first. */
  function LogLines(git: Versioning.Git): seq<string>
  {
    Strings.Split(Versioning.Run(git, ["log", "--pretty=%s"]), '\n')
  }

  /** `check_commit_messages`: one line per message of the whole log that does
      not match, newest first, then an exit with status 1 if there was any. */
  function CheckCommitMessages(git: Versioning.Git): (r: CommitLog.Check)
    ensures r.exitsWithError <==> r.lines != []
  {
    CommitLog.CheckOf(CommitLog.Invalid(Keywords, LogLines(git)))
  }

  /** The check fails exactly when some message of the log does not match. */
  lemma CheckFailsOnInvalid(git: Versioning.Git)
    ensures var lines := LogLines(git);
      (CheckCommitMessages(git).exitsWithError
       <==> exists i :: 0 <= i < |lines| && CommitLog.Classify(Keywords, lines[i]).None?)
  {
    CommitLog.InvalidEmpty(Keywords, LogLines(git));
  }

  /** `_formatted_commits_by_category` over the buckets of `commits`. */
  function FormattedCommitsByCategory(commits: seq<string>): seq<string>
  {
    CommitLog.Changelog(CategoryKeywords, ChangelogCategories,
      keyword => CommitLog.Bucket(Keywords, commits, Some(keyword)))
  }

  /** The changelog is the Features, Bugfixes and Internal blocks, in this order,
      each left out when empty; tooling commits never show. */
  lemma ChangelogOrder(commits: seq<string>)
    ensures FormattedCommitsByCategory(commits)
      == CommitLog.Shown("Features", CommitLog.Bucket(Keywords, commits, Some("feature")))
       + CommitLog.Shown("Bugfixes", CommitLog.Bucket(Keywords, commits, Some("bugfix")))
       + CommitLog.Shown("Internal", CommitLog.Bucket(Keywords, commits, Some("internal")))
  {
    var bucket := keyword => CommitLog.Bucket(Keywords, commits, Some(keyword));
    var shown := ChangelogCategories;
    var t0 := CategoryKeywords;
    var t1, t2, t3 := t0[1..], t0[2..], t0[3..];
    assert t0[0] == ("Features", "feature") && t1[0] == ("Bugfixes", "bugfix") && t2[0] == ("Internal", "internal");
    assert t3[0] == ("Tooling", "tooling");
    assert t1 == t0[1..] && t2 == t1[1..] && t3 == t2[1..] && t3[1..] == [];
    assert shown[0] == "Features" && shown[1] == "Bugfixes" && shown[2] == "Internal";
    assert "Tooling" !in shown;
    CommitLog.ChangelogSkip(t3, shown, bucket);
    CommitLog.ChangelogKeep(t2, shown, bucket);
    CommitLog.ChangelogKeep(t1, shown, bucket);
    CommitLog.ChangelogKeep(t0, shown, bucket);
    Collections.AppendAssoc(CommitLog.Shown("Features", bucket("feature")), CommitLog.Shown("Bugfixes", bucket("bugfix")),
      CommitLog.Shown("Internal", bucket("internal")));
    assert CommitLog.Shown("Internal", bucket("internal")) + [] == CommitLog.Shown("Internal", bucket("internal"));
  }

  /** `changelog()`: the formatted buckets of the commits since the latest tag. */
  function Changelog(git: Versioning.Git): (r: Result<seq<string>, Versioning.ReleaseError>)
    ensures r.Err? <==> Versioning.ParseTags(Versioning.TagLines(git)).Err?
  {
    var pairs :- Versioning.ParseTags(Versioning.TagLines(git));
    Ok(FormattedCommitsByCategory(Versioning.CommitsSince(git, Versioning.Latest(pairs).1)))
  }

  /** `version()` with this script's keywords. */
  function Version(git: Versioning.Git, githubRef: Option<string>): (r: Result<string, Versioning.ReleaseError>)
    ensures r.Err? <==> Versioning.ParseTags(Versioning.TagLines(git)).Err?
  {
    Versioning.VersionString(git, Keywords, githubRef)
  }

  /** `docs` is not a keyword here: a documentation commit does not match. */
  lemma DocsRejected(m: string)
    ensures CommitLog.Classify(Keywords, "[docs] " + m).None?
  {
    var msg := "[docs] " + m;
    assert msg[1] == 'd';
    assert forall i :: 0 <= i < |Keywords| ==> Keywords[i][0] != 'd';
    forall i | 0 <= i < |Keywords| ensures !(CommitLog.Tag(Keywords[i]) <= msg) {
      assert CommitLog.Tag(Keywords[i])[1] == Keywords[i][0];
    }
  }
}
