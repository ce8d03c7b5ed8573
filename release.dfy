/** The release tooling of tools/release.py: five commit keywords, commits read
    oldest first, unmatched messages collected in a `None` bucket that
    `check_commit_messages` reports, and a changelog of the Features, Bugfixes
    and Internal buckets. */
module Release {
  import opened Wrappers
  import Strings
  import CommitLog
  import Versioning
  import Collections

  /** `CategoryKeywords`: changelog category and commit keyword, in order. */
  const CategoryKeywords: seq<(string, string)> := [
    ("Features", "feature"), ("Bugfixes", "bugfix"), ("Internal", "internal"),
    ("Tooling", "tooling"), ("Documentation", "docs")]

  /** The alternation of `CommitMessageRegex`: the keywords of the table. */
  const Keywords: seq<string> := ["feature", "bugfix", "internal", "tooling", "docs"]

  lemma KeywordsOfTable()
    ensures Keywords == CommitLog.Values(CategoryKeywords)
  {
  }

  const ChangelogCategories: seq<string> := ["Features", "Bugfixes", "Internal"]

  /** `_CommitsByCategory`: a bucket per keyword and `None` for unmatched
      messages. */
  type Buckets = map<Option<string>, seq<string>>

  /** Lookup in the `defaultdict`: a missing bucket is empty. */
  function Get(buckets: Buckets, key: Option<string>): seq<string>
  {
    if key in buckets then buckets[key] else []
  }

  /** `buckets` hold exactly the buckets that `commits` create. */
  ghost predicate BucketsOf(buckets: Buckets, commits: seq<string>)
  {
    && (forall key :: key in buckets <==> key in CommitLog.Keys(Keywords, commits))
    && (forall key :: key in buckets ==> buckets[key] == CommitLog.Bucket(Keywords, commits, key))
  }

  /** Appending the next message's entry to its bucket gives the buckets of the
      longer log. */
  lemma FileStep(buckets: Buckets, commits: seq<string>, i: nat)
    requires i < |commits| && BucketsOf(buckets, commits[..i])
    ensures var key := CommitLog.Key(Keywords, commits[i]);
      BucketsOf(buckets[key := Get(buckets, key) + [CommitLog.Entry(Keywords, commits[i])]], commits[..i + 1])
  {
    var key := CommitLog.Key(Keywords, commits[i]);
    CommitLog.FiledSnoc(Keywords, commits, i);
    if key !in buckets {
      CommitLog.BucketEmpty(Keywords, commits[..i], key);
    }
  }

  /** `_commits_by_category`: every message is appended, in order, to the bucket
      of its keyword, or to the `None` bucket when it does not match; a bucket
      exists exactly for the keys that occur. */
  method CommitsByCategory(commits: seq<string>) returns (r: Buckets)
    ensures r.Keys == CommitLog.Keys(Keywords, commits)
    ensures forall key :: key in r ==> r[key] == CommitLog.Bucket(Keywords, commits, key)
    ensures forall key :: Get(r, key) == CommitLog.Bucket(Keywords, commits, key)
  {
    r := map[];
    var i := 0;
    while i < |commits|
      invariant 0 <= i <= |commits|
      invariant BucketsOf(r, commits[..i])
    {
      var msg := commits[i];
      var matched := CommitLog.Classify(Keywords, msg);
      var key := if matched.Some? then Some(matched.value.0) else None;
      var entry := if matched.Some? then matched.value.1 else msg;
      var bucket := if key in r then r[key] else [];
      assert key == CommitLog.Key(Keywords, msg) && entry == CommitLog.Entry(Keywords, msg);
      FileStep(r, commits, i);
      r := r[key := bucket + [entry]];
      i := i + 1;
    }
    assert commits[..i] == commits;
    forall key | key !in r ensures CommitLog.Bucket(Keywords, commits, key) == [] {
      CommitLog.BucketEmpty(Keywords, commits, key);
    }
  }

  /** `check_commit_messages`: all commits, oldest first; one line per message in
      the `None` bucket, then an exit with status 1 if there was any. */
  function CheckCommitMessages(git: Versioning.Git): (r: CommitLog.Check)
    ensures r.exitsWithError <==> r.lines != []
  {
    CommitLog.CheckOf(CommitLog.Bucket(Keywords, Versioning.CommitsSince(git, None), None))
  }

  /** The check reports exactly the messages that do not match, oldest first, and
      fails exactly when there is one. */
  lemma CheckReportsInvalid(git: Versioning.Git)
    ensures var commits := Versioning.CommitsSince(git, None);
      var check := CheckCommitMessages(git);
      && check.lines == CommitLog.Prefixed(CommitLog.InvalidPrefix, CommitLog.Invalid(Keywords, commits))
      && (check.exitsWithError <==> exists i :: 0 <= i < |commits| && CommitLog.Classify(Keywords, commits[i]).None?)
  {
    var commits := Versioning.CommitsSince(git, None);
    CommitLog.InvalidIsNoneBucket(Keywords, commits);
    CommitLog.InvalidEmpty(Keywords, commits);
  }

  /** `_formatted_commits_by_category` over the buckets of `commits`. */
  function FormattedCommitsByCategory(commits: seq<string>): seq<string>
  {
    CommitLog.Changelog(CategoryKeywords, ChangelogCategories,
      keyword => CommitLog.Bucket(Keywords, commits, Some(keyword)))
  }

  /** The changelog is the Features, Bugfixes and Internal blocks, in this order,
      each left out when empty; tooling and documentation commits never show. */
  lemma ChangelogOrder(commits: seq<string>)
    ensures FormattedCommitsByCategory(commits)
      == CommitLog.Shown("Features", CommitLog.Bucket(Keywords, commits, Some("feature")))
       + CommitLog.Shown("Bugfixes", CommitLog.Bucket(Keywords, commits, Some("bugfix")))
       + CommitLog.Shown("Internal", CommitLog.Bucket(Keywords, commits, Some("internal")))
  {
    var bucket := keyword => CommitLog.Bucket(Keywords, commits, Some(keyword));
    var shown := ChangelogCategories;
    var t0 := CategoryKeywords;
    var t1, t2, t3, t4 := t0[1..], t0[2..], t0[3..], t0[4..];
    assert t0[0] == ("Features", "feature") && t1[0] == ("Bugfixes", "bugfix") && t2[0] == ("Internal", "internal");
    assert t3[0] == ("Tooling", "tooling") && t4[0] == ("Documentation", "docs");
    assert t1 == t0[1..] && t2 == t1[1..] && t3 == t2[1..] && t4 == t3[1..] && t4[1..] == [];
    assert shown[0] == "Features" && shown[1] == "Bugfixes" && shown[2] == "Internal";
    assert "Tooling" !in shown && "Documentation" !in shown;
    CommitLog.ChangelogSkip(t4, shown, bucket);
    CommitLog.ChangelogSkip(t3, shown, bucket);
    CommitLog.ChangelogKeep(t2, shown, bucket);
    CommitLog.ChangelogKeep(t1, shown, bucket);
    CommitLog.ChangelogKeep(t0, shown, bucket);
    Collections.AppendAssoc(CommitLog.Shown("Features", bucket("feature")), CommitLog.Shown("Bugfixes", bucket("bugfix")),
      CommitLog.Shown("Internal", bucket("internal")));
    assert CommitLog.Shown("Internal", bucket("internal")) + [] == CommitLog.Shown("Internal", bucket("internal"));
  }

  /** `changelog()`: the formatted buckets of the commits since the latest tag. */
  function Changelog(git: Versioning.Git): (r: Result<seq<string>, Versioning.ReleaseError>)
    ensures r.Err? <==> Versioning.ParseTags(Versioning.TagLines(git)).Err?
  {
    var pairs :- Versioning.ParseTags(Versioning.TagLines(git));
    Ok(FormattedCommitsByCategory(Versioning.CommitsSince(git, Versioning.Latest(pairs).1)))
  }

  /** `version()` with this script's keywords. */
  function Version(git: Versioning.Git, githubRef: Option<string>): (r: Result<string, Versioning.ReleaseError>)
    ensures r.Err? <==> Versioning.ParseTags(Versioning.TagLines(git)).Err?
  {
    Versioning.VersionString(git, Keywords, githubRef)
  }

  /** Every message lands in exactly one bucket: the sizes of the `None` bucket
      and the five keyword buckets add up to the number of commits. */
  lemma BucketsCoverCommits(commits: seq<string>)
    ensures CommitLog.Filed(Keywords, commits, [None] + CommitLog.Somes(Keywords)) == |commits|
  {
    KeywordsDistinct();
    CommitLog.BucketsPartitionAll(Keywords, commits);
  }

  /** A documentation commit is recognised: its entry is the rest of the line. */
  lemma DocsAccepted(m: string)
    requires '\n' !in m
    ensures CommitLog.Classify(Keywords, "[docs] " + m) == Some(("docs", m))
  {
    var msg := "[docs] " + m;
    assert msg[1] == 'd';
    assert CommitLog.Tag("docs") == msg[..7];
    assert msg[|CommitLog.Tag("docs")|..] == m;
    forall j | 0 <= j < 4 ensures !(CommitLog.Tag(Keywords[j]) <= msg) {
      assert CommitLog.Tag(Keywords[j])[1] == Keywords[j][0] != 'd';
    }
    Strings.TakeLineWhole(m);
    CommitLog.ClassifyFirst(Keywords, msg, 4);
  }

  /** The five keywords differ. */
  lemma KeywordsDistinct()
    ensures Collections.Distinct(Keywords)
  {
    var k := Keywords;
    assert k[0][0] == 'f' && k[1][0] == 'b' && k[2][0] == 'i' && k[3][0] == 't' && k[4][0] == 'd';
    forall i, j | 0 <= i < j < |k| ensures k[i] != k[j] {
      assert k[i][0] != k[j][0];
    }
  }
}
