/** Commit messages as the release scripts read them: a message belongs to a
    category when it starts with `[keyword] `, the rest of its first line being
    the changelog entry. `_commits_by_category` files every message in the bucket
    of its category, keeping the order of the log; the changelog prints chosen
    buckets under their category names. Both `tools/release.py` and the older
    `release.py` use this, each with its own keyword table. */
module CommitLog {
  import opened Wrappers
  import Strings
  import Collections

  /** What `CommitMessageRegex` demands in front of the message: `[keyword] `. */
  function Tag(keyword: string): string
  {
    "[" + keyword + "] "
  }

  /** `re.match(CommitMessageRegex, msg)`: the first keyword of the alternation
      whose tag starts the message, and the entry, which is what `.*` matches
      after it (the rest of the line). */
  function Classify(keywords: seq<string>, msg: string): (r: Option<(string, string)>)
    ensures r.Some? ==>
      && r.value.0 in keywords
      && Tag(r.value.0) <= msg
      && r.value.1 == Strings.TakeLine(msg[|Tag(r.value.0)|..])
    ensures r.None? <==> forall i :: 0 <= i < |keywords| ==> !(Tag(keywords[i]) <= msg)
  {
    if keywords == [] then None
    else if Tag(keywords[0]) <= msg then Some((keywords[0], Strings.TakeLine(msg[|Tag(keywords[0])|..])))
    else
      var r := Classify(keywords[1..], msg);
      assert forall i :: 1 <= i < |keywords| ==> keywords[i] == keywords[1..][i - 1];
      r
  }

  /** The bucket a message goes to: its keyword, or `None` when it does not match. */
  function Key(keywords: seq<string>, msg: string): Option<string>
  {
    match Classify(keywords, msg)
    case None => None
    case Some(m) => Some(m.0)
  }

  /** What goes into the bucket: the entry of a matching message, or the whole
      message otherwise. */
  function Entry(keywords: seq<string>, msg: string): string
  {
    match Classify(keywords, msg)
    case None => msg
    case Some(m) => m.1
  }

  /** The contents of bucket `key` after `commits` have been filed one after the
      other. */
  function Bucket(keywords: seq<string>, commits: seq<string>, key: Option<string>): (r: seq<string>)
    ensures |r| <= |commits|
    decreases |commits|
  {
    if commits == [] then []
    else
      var last := commits[|commits| - 1];
      Bucket(keywords, commits[..|commits| - 1], key)
        + (if Key(keywords, last) == key then [Entry(keywords, last)] else [])
  }

  /** The buckets that `commits` create. */
  function Keys(keywords: seq<string>, commits: seq<string>): (r: set<Option<string>>)
    ensures r == {} <==> commits == []
    decreases |commits|
  {
    if commits == [] then {}
    else Keys(keywords, commits[..|commits| - 1]) + {Key(keywords, commits[|commits| - 1])}
  }

  /** A bucket exists exactly for the keys of the messages in the log. */
  lemma {:induction false} KeysOf(keywords: seq<string>, commits: seq<string>, key: Option<string>)
    ensures key in Keys(keywords, commits) <==> exists i :: 0 <= i < |commits| && Key(keywords, commits[i]) == key
    decreases |commits|
  {
    if commits != [] {
      var n := |commits| - 1;
      var prefix := commits[..n];
      KeysOf(keywords, prefix, key);
      if Key(keywords, commits[n]) == key {
        assert 0 <= n < |commits| && Key(keywords, commits[n]) == key;
      } else if key in Keys(keywords, prefix) {
        var i :| 0 <= i < n && Key(keywords, prefix[i]) == key;
        assert prefix[i] == commits[i];
      } else {
        forall i | 0 <= i < |commits| ensures Key(keywords, commits[i]) != key {
          if i < n {
            assert prefix[i] == commits[i];
          }
        }
      }
    }
  }

  /** Filing is done message by message: the buckets of two stretches of log
      follow each other, so every bucket keeps the order of the log. */
  lemma {:induction false} BucketAppend(keywords: seq<string>, a: seq<string>, b: seq<string>, key: Option<string>)
    ensures Bucket(keywords, a + b, key) == Bucket(keywords, a, key) + Bucket(keywords, b, key)
    decreases |b|
  {
    if b == [] {
      assert a + b == a;
    } else {
      var n := |b| - 1;
      assert (a + b)[..|a + b| - 1] == a + b[..n];
      assert (a + b)[|a + b| - 1] == b[n];
      BucketAppend(keywords, a, b[..n], key);
    }
  }

  /** Filing one more message adds its key and appends its entry to that key's
      bucket only. */
  lemma FiledSnoc(keywords: seq<string>, commits: seq<string>, i: nat)
    requires i < |commits|
    ensures Keys(keywords, commits[..i + 1]) == Keys(keywords, commits[..i]) + {Key(keywords, commits[i])}
    ensures forall key :: (Bucket(keywords, commits[..i + 1], key)
      == Bucket(keywords, commits[..i], key)
        + (if Key(keywords, commits[i]) == key then [Entry(keywords, commits[i])] else []))
  {
    var p := commits[..i + 1];
    assert p[..i] == commits[..i] && p[i] == commits[i];
  }

  /** A bucket is empty exactly when no message of the log has its key: every
      message lands in one bucket. */
  lemma {:induction false} BucketEmpty(keywords: seq<string>, commits: seq<string>, key: Option<string>)
    ensures Bucket(keywords, commits, key) == [] <==> key !in Keys(keywords, commits)
    decreases |commits|
  {
    if commits != [] {
      var n := |commits| - 1;
      BucketEmpty(keywords, commits[..n], key);
    }
  }

  /** The total size of the buckets named in `keys`. */
  function Filed(keywords: seq<string>, commits: seq<string>, keys: seq<Option<string>>): nat
  {
    if keys == [] then 0 else |Bucket(keywords, commits, keys[0])| + Filed(keywords, commits, keys[1..])
  }

  /** How many of `keys` equal `key`. */
  function Occurrences(keys: seq<Option<string>>, key: Option<string>): nat
  {
    if keys == [] then 0 else (if keys[0] == key then 1 else 0) + Occurrences(keys[1..], key)
  }

  lemma {:induction false} OccursOnce(keys: seq<Option<string>>, key: Option<string>)
    requires Collections.Distinct(keys) && key in keys
    ensures Occurrences(keys, key) == 1
  {
    if keys[0] != key {
      assert key in keys[1..];
      OccursOnce(keys[1..], key);
    } else {
      OccursNot(keys[1..], key);
    }
  }

  lemma {:induction false} OccursNot(keys: seq<Option<string>>, key: Option<string>)
    requires key !in keys
    ensures Occurrences(keys, key) == 0
  {
    if keys != [] {
      OccursNot(keys[1..], key);
    }
  }

  /** Adding one message grows exactly the bucket of its key by one. */
  lemma {:induction false} FiledStep(keywords: seq<string>, commits: seq<string>, keys: seq<Option<string>>)
    requires commits != []
    ensures Filed(keywords, commits, keys)
      == Filed(keywords, commits[..|commits| - 1], keys)
         + Occurrences(keys, Key(keywords, commits[|commits| - 1]))
  {
    if keys != [] {
      FiledStep(keywords, commits, keys[1..]);
    }
  }

  /** The buckets partition the log: over distinct keys that cover every message,
      the bucket sizes add up to the number of messages. */
  lemma {:induction false} BucketsPartition(keywords: seq<string>, commits: seq<string>, keys: seq<Option<string>>)
    requires Collections.Distinct(keys)
    requires forall i :: 0 <= i < |commits| ==> Key(keywords, commits[i]) in keys
    ensures Filed(keywords, commits, keys) == |commits|
    decreases |commits|
  {
    if commits == [] {
      FiledEmpty(keywords, keys);
    } else {
      var n := |commits| - 1;
      assert forall i :: 0 <= i < n ==> commits[..n][i] == commits[i];
      BucketsPartition(keywords, commits[..n], keys);
      FiledStep(keywords, commits, keys);
      OccursOnce(keys, Key(keywords, commits[n]));
    }
  }

  lemma {:induction false} FiledEmpty(keywords: seq<string>, keys: seq<Option<string>>)
    ensures Filed(keywords, [], keys) == 0
  {
    if keys != [] {
      FiledEmpty(keywords, keys[1..]);
    }
  }

  /** `[msg for msg in commits if not re.match(CommitMessageRegex, msg)]`. */
  function Invalid(keywords: seq<string>, commits: seq<string>): (r: seq<string>)
    ensures forall i :: 0 <= i < |r| ==> r[i] in commits && Classify(keywords, r[i]).None?
  {
    if commits == [] then []
    else (if Classify(keywords, commits[0]).None? then [commits[0]] else []) + Invalid(keywords, commits[1..])
  }

  /** The unmatched messages, filtered from the log, are exactly the `None`
      bucket, in the same order. */
  lemma {:induction false} InvalidIsNoneBucket(keywords: seq<string>, commits: seq<string>)
    ensures Invalid(keywords, commits) == Bucket(keywords, commits, None)
    decreases |commits|
  {
    if commits != [] {
      InvalidIsNoneBucket(keywords, commits[1..]);
      assert commits == [commits[0]] + commits[1..];
      BucketAppend(keywords, [commits[0]], commits[1..], None);
      assert [commits[0]][..0] == [];
      assert Bucket(keywords, [commits[0]], None)
        == (if Key(keywords, commits[0]) == None then [Entry(keywords, commits[0])] else []);
      assert Key(keywords, commits[0]) == None <==> Classify(keywords, commits[0]).None?;
    }
  }

  /** No message is invalid exactly when every message matches. */
  lemma {:induction false} InvalidEmpty(keywords: seq<string>, commits: seq<string>)
    ensures Invalid(keywords, commits) == [] <==> forall i :: 0 <= i < |commits| ==> Classify(keywords, commits[i]).Some?
  {
    if commits != [] {
      InvalidEmpty(keywords, commits[1..]);
      assert forall i :: 1 <= i < |commits| ==> commits[i] == commits[1..][i - 1];
    }
  }

  /** `prefix + message` for each message, in order: the changelog's items and
      the check's complaints are both lines of this shape. */
  function Prefixed(prefix: string, messages: seq<string>): (r: seq<string>)
    ensures |r| == |messages|
    ensures forall i :: 0 <= i < |messages| ==> r[i] == prefix + messages[i]
  {
    if messages == [] then [] else [prefix + messages[0]] + Prefixed(prefix, messages[1..])
  }

  /** The prefix of a changelog item. */
  const ItemPrefix := "  * "

  /** The prefix of a line reporting a message that matches no category. */
  const InvalidPrefix := "Invalid commit message: "

  /** `_formatted_category`: the heading `* Category`, then one item per message. */
  function FormattedCategory(category: string, messages: seq<string>): seq<string>
  {
    ["* " + category] + Prefixed(ItemPrefix, messages)
  }

  /** A category's part of the changelog when it is shown: nothing when it has
      no messages. */
  function Shown(category: string, messages: seq<string>): seq<string>
  {
    if messages == [] then [] else FormattedCategory(category, messages)
  }

  /** `_formatted_commits_by_category`: the keyword table walked in its order,
      each shown category contributing its block; `bucket` is the lookup in the
      buckets, empty for a missing one. */
  function Changelog(table: seq<(string, string)>, shown: seq<string>, bucket: string -> seq<string>)
    : seq<string>
  {
    if table == [] then []
    else
      (if table[0].0 in shown && |bucket(table[0].1)| > 0
       then FormattedCategory(table[0].0, bucket(table[0].1)) else [])
        + Changelog(table[1..], shown, bucket)
  }

  /** A shown category contributes its block, in its place. */
  lemma ChangelogKeep(table: seq<(string, string)>, shown: seq<string>, bucket: string -> seq<string>)
    requires table != [] && table[0].0 in shown
    ensures Changelog(table, shown, bucket)
      == Shown(table[0].0, bucket(table[0].1)) + Changelog(table[1..], shown, bucket)
  {
  }

  /** A category that is not shown contributes nothing, whatever its bucket. */
  lemma ChangelogSkip(table: seq<(string, string)>, shown: seq<string>, bucket: string -> seq<string>)
    requires table != [] && table[0].0 !in shown
    ensures Changelog(table, shown, bucket) == Changelog(table[1..], shown, bucket)
  {
    assert [] + Changelog(table[1..], shown, bucket) == Changelog(table[1..], shown, bucket);
  }

  /** The alternation is tried in order: the first keyword whose tag starts the
      message wins. */
  lemma {:induction false} ClassifyFirst(keywords: seq<string>, msg: string, i: nat)
    requires i < |keywords| && Tag(keywords[i]) <= msg
    requires forall j :: 0 <= j < i ==> !(Tag(keywords[j]) <= msg)
    ensures Classify(keywords, msg) == Some((keywords[i], Strings.TakeLine(msg[|Tag(keywords[i])|..])))
  {
    if i > 0 {
      var tail := keywords[1..];
      assert forall j :: 0 <= j < i - 1 ==> tail[j] == keywords[j + 1];
      ClassifyFirst(tail, msg, i - 1);
    }
  }

  /** The key of a message is `None` or one of the keywords. */
  lemma KeyKnown(keywords: seq<string>, msg: string)
    ensures Key(keywords, msg) == None || Key(keywords, msg).value in keywords
  {
  }

  /** `Some(k)` for each keyword `k`. */
  function Somes(keywords: seq<string>): (r: seq<Option<string>>)
    ensures |r| == |keywords| && forall i :: 0 <= i < |r| ==> r[i] == Some(keywords[i])
  {
    if keywords == [] then [] else [Some(keywords[0])] + Somes(keywords[1..])
  }

  /** With distinct keywords, the `None` bucket and the keyword buckets together
      hold every message once. */
  lemma BucketsPartitionAll(keywords: seq<string>, commits: seq<string>)
    requires Collections.Distinct(keywords)
    ensures Filed(keywords, commits, [None] + Somes(keywords)) == |commits|
  {
    var keys := [None] + Somes(keywords);
    assert Collections.Distinct(keys) by {
      forall i, j | 0 <= i < j < |keys| ensures keys[i] != keys[j] {
        if i > 0 {
          assert keys[i] == Some(keywords[i - 1]) && keys[j] == Some(keywords[j - 1]);
        }
      }
    }
    forall i | 0 <= i < |commits| ensures Key(keywords, commits[i]) in keys {
      KeyKnown(keywords, commits[i]);
      if Key(keywords, commits[i]) != None {
        var k :| 0 <= k < |keywords| && keywords[k] == Key(keywords, commits[i]).value;
        assert keys[k + 1] == Key(keywords, commits[i]);
      }
    }
    BucketsPartition(keywords, commits, keys);
  }

  /** `CategoryKeywords.values()`, in order. */
  function Values(table: seq<(string, string)>): seq<string>
  {
    if table == [] then [] else [table[0].1] + Values(table[1..])
  }

  /** What `check_commit_messages` produces: the lines it yields, then whether it
      ends with `sys.exit(1)`. */
  datatype Check = Check(lines: seq<string>, exitsWithError: bool)

  /** The check over the unmatched messages `invalid`. */
  function CheckOf(invalid: seq<string>): Check
  {
    Check(Prefixed(InvalidPrefix, invalid), |invalid| > 0)
  }

  /** `log.split("\n")` read oldest first: the `git log` output reversed. */
  function OldestFirst(log: string): (r: seq<string>)
    ensures |r| == |Strings.Split(log, '\n')|
    ensures forall i :: 0 <= i < |r| ==> r[i] == Strings.Split(log, '\n')[|r| - 1 - i]
  {
    var lines := Strings.Split(log, '\n');
    assert forall i :: 0 <= i < |lines| ==> Collections.Reverse(lines)[i] == lines[|lines| - 1 - i] by {
      forall i | 0 <= i < |lines| ensures Collections.Reverse(lines)[i] == lines[|lines| - 1 - i] {
        Collections.ReverseIndex(lines, i);
      }
    }
    Collections.Reverse(lines)
  }
}
