/** The size gate's rules on the fields and the words themselves: what opens a test region, which dispositions may
    follow which, and exactly which trees and which merges pass. */
module SizeLaws {
  import opened Wrappers
  import opened Sequences
  import opened PythonText
  import opened TextLaws
  import opened SizeRatchet
  import ProductionSource

  // ---- what opens a test region ------------------------------------------------------------------------------

  predicate IsWordCharacter(c: char, wide: set<char>) {
    'a' <= c <= 'z' || 'A' <= c <= 'Z' || '0' <= c <= '9' || c == '_' || c in wide
  }

  /** The text begins with these words, and the last one ends there. */
  predicate BeginsWith(s: string, words: string, wide: set<char>) {
    |s| >= |words| && s[..|words|] == words && (|s| > |words| ==> !IsWordCharacter(s[|words|], wide))
  }

  /** A line opens a test region exactly when, white space aside, it begins with one of the two attributes. */
  lemma TestAttributeIff(white: string, s: string, wide: set<char>)
    requires (forall k | 0 <= k < |white| :: IsWhite(white[k])) && (s == "" || !IsWhite(s[0]))
    ensures ProductionSource.IsTestAttr(white + s, wide) <==>
            BeginsWith(s, "#[cfg(test", wide) || BeginsWith(s, "#[cfg(all(test", wide)
  {
    TrimmedIs(white, s);
  }

  lemma {:induction false} CountIs(s: string, c: char)
    ensures ProductionSource.Count(s, c) == multiset(s)[c]
  {
    if s == "" {
    } else {
      CountIs(s[1..], c);
      assert s == [s[0]] + s[1..];
    }
  }

  // ---- dispositions ------------------------------------------------------------------------------------------

  predicate IsDisposition(s: string) {
    s == "unreviewed" || s == "reviewed-exception" || s == "reviewed-action-required"
  }

  /** Any disposition may follow any other, but a completed review is not undone. */
  lemma PermittedIff(was: string, now: string)
    ensures PermittedTransition(was, now) <==>
            IsDisposition(was) && IsDisposition(now) && (was != "unreviewed" ==> now != "unreviewed")
  {
  }

  /** What is reported of dispositions: exactly the reviews undone, by the file, the old disposition and the new. */
  lemma TransitionsReported(previous: Registry, current: Registry, rels: seq<string>, p: Problem)
    requires Lists(rels, current)
    ensures p in Gather(rels, TransitionAt(previous, current)) <==>
            exists rel | rel in current && rel in previous ::
              && p.BadTransition? && p.rel == rel && p.after == "unreviewed" && IsDisposition(p.before)
              && p.before != "unreviewed"
              && previous[rel].status == Some(p.before) && current[rel].status == Some(p.after)
  {
    var f := TransitionAt(previous, current);
    InGather(rels, f, p);
    forall rel | rel in current
      ensures p in f(rel) <==>
              && rel in previous
              && p.BadTransition? && p.rel == rel && p.after == "unreviewed" && IsDisposition(p.before)
              && p.before != "unreviewed"
              && previous[rel].status == Some(p.before) && current[rel].status == Some(p.after)
    {
      TransitionReported(rel, Get(previous, rel), current[rel], p);
    }
    hide Gather, TransitionAt, IsDisposition;
  }

  lemma TransitionReported(rel: string, before: Option<Entry>, now: Entry, p: Problem)
    ensures p in TransitionProblems(rel, before, now) <==>
            && before.Some?
            && p.BadTransition? && p.rel == rel && p.after == "unreviewed" && IsDisposition(p.before)
            && p.before != "unreviewed"
            && before.value.status == Some(p.before) && now.status == Some(p.after)
  {
    if before.Some? && before.value.status.Some? && now.status.Some? {
      PermittedIff(before.value.status.value, now.status.value);
    }
    hide PermittedTransition;
  }

  /** An entry is stale exactly when no source has its path. */
  lemma StaleReported(measured: map<string, nat>, rels: seq<string>, rel: string)
    ensures StaleEntry(rel) in Gather(rels, StaleAt(measured)) <==> rel in rels && rel !in measured
  {
    InGather(rels, StaleAt(measured), StaleEntry(rel));
    hide Gather;
  }

  // ---- trees -------------------------------------------------------------------------------------------------

  /** The entry is well formed: its fields are there and known, and its review has its documents. */
  predicate IsWellFormed(e: Entry, docs: map<string, string>) {
    && e.baseline.Some? && e.sha.Some? && e.status.Some? && IsDisposition(e.status.value) && e.extra == {}
    && (e.status.value != "unreviewed" ==> e.reviewRef.Some? && e.reviewRef.value.text != "")
    && (e.reviewRef.Some? && e.reviewRef.value.text != "" ==>
          e.reviewRef.value.docs != [] && forall d | d in e.reviewRef.value.docs :: d in docs)
  }

  lemma WellFormedIff(e: Entry, docs: map<string, string>)
    ensures ValidEntry(e, docs) <==> IsWellFormed(e, docs)
  {
  }

  /** A tree is in order exactly when it has sources, every entry is of one of them and well formed, and every source
      is of at most 200 lines and not registered, or of more, registered and within its baseline. */
  lemma TreeIff(tree: Tree, count: Bytes -> nat)
    ensures TreeOk(tree, count) <==>
            && tree.sources != map[]
            && (forall rel | rel in tree.registry :: rel in tree.sources && IsWellFormed(tree.registry[rel], tree.docs))
            && (forall rel | rel in tree.sources ::
                  if count(tree.sources[rel]) <= 200 then rel !in tree.registry
                  else rel in tree.registry && tree.registry[rel].baseline.Some?
                       && count(tree.sources[rel]) <= tree.registry[rel].baseline.value)
  {
    forall rel | rel in tree.registry
      ensures ValidEntry(tree.registry[rel], tree.docs) <==> IsWellFormed(tree.registry[rel], tree.docs)
    {
      WellFormedIff(tree.registry[rel], tree.docs);
    }
    hide ValidEntry, IsWellFormed;
  }

  // ---- merges ------------------------------------------------------------------------------------------------

  /** Some document the entry cites for its growth contains the line for this path and these two numbers. */
  ghost predicate IsRecorded(rel: string, e: Entry, was: int, now: int, docs: map<string, string>) {
    && e.growthRef.Some?
    && exists d | d in e.growthRef.value.docs ::
         d in docs && Contains(docs[d], "growth-authorization: " + rel + " " + Decimal(was) + " -> " + Decimal(now))
  }

  /** One entry may follow another: the disposition may, the two halves of an authorization come together, and the
      baseline does not rise past a carried authorization, or rises by a correction or on record. */
  ghost predicate MayFollow(
    rel: string, e: Entry, before: Option<Entry>, actual: Option<nat>, same: bool, docs: map<string, string>
  )
  {
    && (before.Some? && before.value.status.Some? && e.status.Some?
        && IsDisposition(before.value.status.value) && IsDisposition(e.status.value) ==>
          before.value.status.value == "unreviewed" || e.status.value != "unreviewed")
    && (e.growthFrom.Some? <==> e.growthRef.Some?)
    && (before.Some? && before.value.baseline.Some? && e.baseline.Some? ==>
          var was, now := before.value.baseline.value, e.baseline.value;
          if now <= was then e.growthFrom.Some? ==> e.growthFrom.value < now
          else
            || (e.growthFrom.None? && actual == Some(now) && same)
            || (e.growthFrom == Some(was) && (actual.Some? ==> actual == Some(now))
                && e.status == Some("reviewed-exception") && IsRecorded(rel, e, was, now, docs)))
  }

  lemma FollowIff(
    rel: string, e: Entry, before: Option<Entry>, actual: Option<nat>, same: bool, docs: map<string, string>
  )
    ensures TransitionOk(before, e) && GrowthOk(rel, e, before, actual, docs, same) <==>
            MayFollow(rel, e, before, actual, same, docs)
  {
    if before.Some? && before.value.status.Some? && e.status.Some? {
      PermittedIff(before.value.status.value, e.status.value);
    }
    hide Contains, Decimal, PermittedTransition;
  }

  /** A merge's transitions are in order exactly when every entry may follow what the base has of it; a file is the
      same if both revisions have it byte for byte. */
  lemma MergeIff(base: Tree, tree: Tree, count: Bytes -> nat)
    ensures TransitionsOk(base, tree, count) <==>
            forall rel | rel in tree.registry ::
              MayFollow(rel, tree.registry[rel], if rel in base.registry then Some(base.registry[rel]) else None,
                        if rel in tree.sources then Some(count(tree.sources[rel])) else None,
                        rel in base.sources && rel in tree.sources && base.sources[rel] == tree.sources[rel], tree.docs)
  {
    forall rel | rel in tree.registry
      ensures var e, before := tree.registry[rel], Get(base.registry, rel);
              var actual, same := Get(Measured(tree.sources, count), rel), Untouched(base, tree, rel);
              TransitionOk(before, e) && GrowthOk(rel, e, before, actual, tree.docs, same) <==>
              MayFollow(rel, e, before, actual, same, tree.docs)
    {
      FollowIff(rel, tree.registry[rel], Get(base.registry, rel), Get(Measured(tree.sources, count), rel),
                Untouched(base, tree, rel), tree.docs);
    }
    hide TransitionOk, GrowthOk, MayFollow;
  }

  /** A number's text reads back as the number. */
  function ReadBack(s: string): int {
    if s == "" then 0 else 10 * ReadBack(s[..|s| - 1]) + (s[|s| - 1] as int - '0' as int)
  }

  lemma {:induction false} NaturalReadsBack(n: nat)
    ensures ReadBack(Natural(n)) == n
    ensures forall k | 0 <= k < |Natural(n)| :: '0' <= Natural(n)[k] <= '9'
    ensures n > 0 ==> Natural(n)[0] != '0'
    ensures n == 0 ==> |Natural(n)| == 1
  {
    var s := Natural(n);
    DigitReadsBack(n % 10);
    if n < 10 {
      assert s[..|s| - 1] == "";
    } else {
      NaturalReadsBack(n / 10);
      assert s[..|s| - 1] == Natural(n / 10);
    }
  }

  lemma DigitReadsBack(d: nat)
    requires d < 10
    ensures "0123456789"[d] as int - '0' as int == d
  {
  }
}
