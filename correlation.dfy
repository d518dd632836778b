/**
 * The lookup half of `scan_running_processes`: each running executable's
 * `pacman -Qo` output is read as "<path> is owned by <package> <version>"
 * and the package is its fifth whitespace-separated token. The loop that
 * stamps rows and logs events is `Tracker.DustTracker.ScanRunningProcesses`.
 */
module Correlation {
  import opened Wrappers
  import opened Text
  import opened PackageStore

  /**
   * The fifth whitespace-separated token of the owner lookup for one path:
   * `None` when `pacman -Qo` failed (CalledProcessError) or printed fewer
   * than five tokens (IndexError); both are skipped by the loop.
   */
  function OwnerOf(output: Option<string>): (r: Option<string>)
    ensures r.Some? <==> output.Some? && |Tokens(output.value)| >= 5
  {
    match output
    case None => None
    case Some(out) =>
      var ts := Tokens(out);
      if |ts| < 5 then None else Some(ts[4])
  }

  /** A resolved owner is one whitespace-free word. */
  lemma OwnerIsWord(output: Option<string>)
    ensures OwnerOf(output).Some? ==> IsWord(OwnerOf(output).value)
  {
    if output.Some? {
      TokensAreWords(output.value);
    }
  }

  /** The package names the loop resolves, one per resolved path, in path order, duplicates kept. */
  function Resolved(outputs: seq<Option<string>>): (names: seq<string>)
    ensures |names| <= |outputs|
  {
    if |outputs| == 0 then []
    else
      var k := |outputs| - 1;
      Resolved(outputs[..k]) + (match OwnerOf(outputs[k]) case None => [] case Some(n) => [n])
  }

  /** Resolving one more path appends its owner, if its lookup answered with enough tokens. */
  lemma ResolvedSnoc(outputs: seq<Option<string>>, i: nat)
    requires i < |outputs|
    ensures OwnerOf(outputs[i]).None? ==> Resolved(outputs[..i + 1]) == Resolved(outputs[..i])
    ensures OwnerOf(outputs[i]).Some? ==> Resolved(outputs[..i + 1]) == Resolved(outputs[..i]) + [OwnerOf(outputs[i]).value]
  {
    assert outputs[..i + 1][..i] == outputs[..i];
  }

  /** The `usage_events` rows one scan appends: one `process_scan` row per resolved name, stamped `now`. */
  function EventsFor(names: seq<string>, now: int): (evs: seq<Event>)
    ensures |evs| == |names|
    ensures forall k :: 0 <= k < |names| ==> evs[k] == Event(names[k], ProcessScan, now)
  {
    seq(|names|, k requires 0 <= k < |names| => Event(names[k], ProcessScan, now))
  }

  /** One more resolved name appends one more event row. */
  lemma EventsForSnoc(log: seq<Event>, names: seq<string>, name: string, now: int)
    ensures log + EventsFor(names + [name], now) == (log + EventsFor(names, now)) + [Event(name, ProcessScan, now)]
  {
    assert EventsFor(names + [name], now) == EventsFor(names, now) + [Event(name, ProcessScan, now)];
  }

  /** The positions of the paths whose owner was resolved. */
  function ResolvedPositions(outputs: seq<Option<string>>): set<int> {
    set i | 0 <= i < |outputs| && OwnerOf(outputs[i]).Some?
  }

  /**
   * Resolution keeps one name per resolved path and drops the others: there
   * are exactly as many names (hence appended events) as paths whose lookup
   * succeeded, with no deduplication.
   */
  lemma {:induction false} ResolvedCount(outputs: seq<Option<string>>)
    ensures |Resolved(outputs)| == |ResolvedPositions(outputs)|
  {
    if |outputs| > 0 {
      var k := |outputs| - 1;
      var before := ResolvedPositions(outputs[..k]);
      ResolvedCount(outputs[..k]);
      PositionsSnoc(outputs);
      ResolvedSnoc(outputs, k);
      assert outputs[..k + 1] == outputs;
      if OwnerOf(outputs[k]).Some? {
        assert |before + {k}| == |before| + 1;
      } else {
        assert before + {} == before;
      }
    }
  }

  /** One more path adds its own position when its owner is resolved, and no other. */
  lemma PositionsSnoc(outputs: seq<Option<string>>)
    requires |outputs| > 0
    ensures var k := |outputs| - 1;
            && k !in ResolvedPositions(outputs[..k])
            && ResolvedPositions(outputs) ==
                 ResolvedPositions(outputs[..k]) + (if OwnerOf(outputs[k]).Some? then {k} else {})
  {
    var k := |outputs| - 1;
    var p := outputs[..k];
    var before := ResolvedPositions(p);
    var after := ResolvedPositions(outputs);
    forall i | i in after && i != k ensures i in before {
      assert outputs[i] == p[i];
    }
    forall i | i in before ensures i in after {
      assert outputs[i] == p[i];
    }
  }

  /** Each resolved name is the fifth token of some path's lookup output. */
  lemma {:induction false} ResolvedFromOutputs(outputs: seq<Option<string>>, k: int)
    requires 0 <= k < |Resolved(outputs)|
    ensures exists i :: 0 <= i < |outputs| && OwnerOf(outputs[i]) == Some(Resolved(outputs)[k])
  {
    var last := |outputs| - 1;
    var p := outputs[..last];
    if k < |Resolved(p)| {
      ResolvedFromOutputs(p, k);
      var i :| 0 <= i < |p| && OwnerOf(p[i]) == Some(Resolved(p)[k]);
      assert outputs[i] == p[i];
    } else {
      assert OwnerOf(outputs[last]) == Some(Resolved(outputs)[k]);
    }
  }

  /** Two processes of one package give two events for it. */
  lemma NoDeduplication(a: string, b: string, now: int)
    requires |Tokens(a)| >= 5 && |Tokens(b)| >= 5 && Tokens(a)[4] == Tokens(b)[4]
    ensures var evs := EventsFor(Resolved([Some(a), Some(b)]), now);
            |evs| == 2 && evs[0] == evs[1] == Event(Tokens(a)[4], ProcessScan, now)
  {
    var outputs := [Some(a), Some(b)];
    assert outputs[..1] == [Some(a)];
    assert [Some(a)][..0] == [];
  }

  /** pacman's own answer, with its final newline, resolves to the package token. */
  lemma OwnerOfPacmanLine(path: string, pkg: string, version: string)
    requires IsWord(path) && IsWord(pkg) && IsWord(version)
    ensures OwnerOf(Some(JoinWords([path, "is", "owned", "by", pkg, version]) + "\n")) == Some(pkg)
  {
    var ws := [path, "is", "owned", "by", pkg, version];
    assert IsWord("is") && IsWord("owned") && IsWord("by");
    TokensOfLine(ws);
  }

  /** The words of pacman's "is owned by" answer for an executable whose path splits into the words `path`. */
  function OwnedByWords(path: seq<string>, pkg: string, version: string): seq<string> {
    path + ["is", "owned", "by", pkg, version]
  }

  /**
   * A path made of several blank-separated words shifts the tokens of
   * pacman's answer: the owner read is then the fifth of the path's words
   * followed by "is owned by <pkg> <version>", which is `<pkg>` only for
   * a path of one word.
   */
  lemma OwnerOfSpacedPath(path: seq<string>, pkg: string, version: string)
    requires forall k :: 0 <= k < |path| ==> IsWord(path[k])
    requires IsWord(pkg) && IsWord(version)
    ensures OwnerOf(Some(JoinWords(OwnedByWords(path, pkg, version)) + "\n")) == Some(OwnedByWords(path, pkg, version)[4])
  {
    var ws := OwnedByWords(path, pkg, version);
    var tail := ["is", "owned", "by", pkg, version];
    assert ws == path + tail;
    assert IsWord("is") && IsWord("owned") && IsWord("by");
    forall k | 0 <= k < |ws| ensures IsWord(ws[k]) {
      if k < |path| {
        assert ws[k] == path[k];
      } else {
        assert ws[k] == tail[k - |path|];
      }
    }
    OwnerOfWords(ws);
  }

  /** The owner read from a one-line answer of at least five words is its fifth word. */
  lemma OwnerOfWords(ws: seq<string>)
    requires |ws| >= 5 && forall k :: 0 <= k < |ws| ==> IsWord(ws[k])
    ensures OwnerOf(Some(JoinWords(ws) + "\n")) == Some(ws[4])
  {
    TokensOfLine(ws);
  }

  /** A path with exactly one blank gap in it makes the fifth token "by", not the package. */
  lemma ExecutablePathWithSpace(dir: string, file: string, pkg: string, version: string)
    requires IsWord(dir) && IsWord(file) && IsWord(pkg) && IsWord(version)
    ensures OwnerOf(Some(JoinWords([dir, file, "is", "owned", "by", pkg, version]) + "\n")) == Some("by")
  {
    var ws := [dir, file, "is", "owned", "by", pkg, version];
    assert IsWord("is") && IsWord("owned") && IsWord("by");
    TokensOfLine(ws);
  }
}
