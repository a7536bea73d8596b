/**
 * The breadcrumb above the listing: the bucket name, then one segment per
 * non-empty component of the current prefix. Each segment is a label and
 * the prefix a click on it navigates to.
 */
module Breadcrumb {
  import opened Js
  import opened Paths

  datatype Segment = Segment(text: string, target: string)

  /** The root segment's text: the bucket name, or "" while no bucket is selected (`textContent = null`). */
  function BucketLabel(bucket: Option<string>): string {
    match bucket
    case None => ""
    case Some(name) => name
  }

  /**
   * The trail the client builds. The accumulated `path` is one variable
   * shared by every click handler, so each component segment navigates to
   * the value the loop left in it: the whole accumulated prefix.
   */
  function AsWrittenTrail(root: string, prefix: string): (trail: seq<Segment>)
    ensures |trail| == 1 + |Components(prefix)|
    ensures trail[0] == Segment(root, "")
    ensures forall i :: 1 <= i < |trail| ==> trail[i].text == Components(prefix)[i - 1]
  {
    var parts := Components(prefix);
    if prefix == [] then [Segment(root, "")]
    else [Segment(root, "")] + seq(|parts|, i requires 0 <= i < |parts| => Segment(parts[i], PrefixOf(parts)))
  }

  /** The intended component segments: segment i navigates to the prefix made of the first i + 1 components. */
  function CumulativeSegments(parts: seq<string>): seq<Segment> {
    seq(|parts|, i requires 0 <= i < |parts| => Segment(parts[i], PrefixOf(parts[..i + 1])))
  }

  /** The intended trail: the bucket, then the cumulative segments of the prefix's components. */
  function CumulativeTrail(root: string, prefix: string): (trail: seq<Segment>)
    ensures |trail| == 1 + |Components(prefix)|
    ensures trail[0] == Segment(root, "")
    ensures forall i :: 1 <= i < |trail| ==> trail[i].text == Components(prefix)[i - 1]
  {
    [Segment(root, "")] + CumulativeSegments(Components(prefix))
  }

  /** One more component adds one segment, which navigates to the whole extended prefix. */
  lemma CumulativeSegmentsSnoc(parts: seq<string>, c: string)
    ensures CumulativeSegments(parts + [c]) == CumulativeSegments(parts) + [Segment(c, PrefixOf(parts) + c + "/")]
  {
    var longer := parts + [c];
    forall i | 0 <= i < |parts|
      ensures CumulativeSegments(longer)[i] == CumulativeSegments(parts)[i]
    {
      assert longer[..i + 1] == parts[..i + 1];
    }
    assert longer[..|parts| + 1] == longer;
    PrefixOfSnoc(parts, c);
  }

  /** As written, every component segment of a canonical prefix navigates back to that same prefix. */
  lemma AsWrittenTargetsCurrent(root: string, prefix: string)
    requires Canonical(prefix)
    ensures forall i :: 1 <= i < |AsWrittenTrail(root, prefix)| ==> AsWrittenTrail(root, prefix)[i].target == prefix
  {}

  /** The two trails agree on labels and differ in targets: for "a/b/" the "a" segment leads to "a/b/" instead of "a/". */
  lemma TrailsDiverge()
    ensures AsWrittenTrail("bkt", "a/b/")[1] == Segment("a", "a/b/")
    ensures CumulativeTrail("bkt", "a/b/")[1] == Segment("a", "a/")
  {
    var parts := ["a", "b"];
    assert PrefixOf(parts[1..]) == "b/";
    assert PrefixOf(parts) == "a/b/";
    ComponentsOfPrefix(parts);
    assert parts[..1] == ["a"];
    assert PrefixOf(["a"]) == "a/";
  }

  /** Segment i of the intended trail targets the prefix of the first i components. */
  lemma CumulativeTargetIs(root: string, prefix: string, i: nat)
    requires i <= |Components(prefix)|
    ensures CumulativeTrail(root, prefix)[i].target == PrefixOf(Components(prefix)[..i])
  {
    var parts := Components(prefix);
    if i == 0 {
      assert parts[..0] == [];
    } else {
      assert CumulativeTrail(root, prefix)[i] == CumulativeSegments(parts)[i - 1];
    }
  }

  /** Segment i's target holds exactly the first i components and is canonical. */
  lemma CumulativeTargetCanonical(root: string, prefix: string, i: nat)
    requires i <= |Components(prefix)|
    ensures Components(CumulativeTrail(root, prefix)[i].target) == Components(prefix)[..i]
    ensures Canonical(CumulativeTrail(root, prefix)[i].target)
  {
    var parts := Components(prefix);
    CumulativeTargetIs(root, prefix, i);
    assert ValidParts(parts[..i]);
    ComponentsOfPrefix(parts[..i]);
    PrefixOfCanonical(parts[..i]);
  }

  /** Going up from segment i + 1's target lands on segment i's. */
  lemma CumulativeTargetParent(root: string, prefix: string, i: nat)
    requires i < |Components(prefix)|
    ensures ParentPrefix(CumulativeTrail(root, prefix)[i + 1].target) == CumulativeTrail(root, prefix)[i].target
  {
    var parts := Components(prefix);
    CumulativeTargetIs(root, prefix, i);
    CumulativeTargetIs(root, prefix, i + 1);
    assert ValidParts(parts[..i]);
    PrefixOfCanonical(parts[..i]);
    assert parts[..i + 1] == parts[..i] + [parts[i]];
    PrefixOfSnoc(parts[..i], parts[i]);
    ParentOfChild(PrefixOf(parts[..i]), parts[i]);
  }

  /**
   * In the intended trail each target is a canonical prefix holding the first
   * i components, going up from segment i + 1 lands on segment i, and the last
   * segment of a canonical prefix is that prefix.
   */
  lemma CumulativeTargets(root: string, prefix: string)
    ensures var trail := CumulativeTrail(root, prefix);
      && (forall i :: 0 <= i < |trail| ==> Components(trail[i].target) == Components(prefix)[..i])
      && (forall i :: 0 <= i < |trail| ==> Canonical(trail[i].target))
      && (forall i :: 0 <= i < |trail| - 1 ==> ParentPrefix(trail[i + 1].target) == trail[i].target)
      && (Canonical(prefix) ==> trail[|trail| - 1].target == prefix)
  {
    var parts := Components(prefix);
    var trail := CumulativeTrail(root, prefix);
    forall i | 0 <= i < |trail|
      ensures Components(trail[i].target) == parts[..i]
      ensures Canonical(trail[i].target)
    {
      CumulativeTargetCanonical(root, prefix, i);
    }
    forall i | 0 <= i < |trail| - 1
      ensures ParentPrefix(trail[i + 1].target) == trail[i].target
    {
      CumulativeTargetParent(root, prefix, i);
    }
    CumulativeTargetIs(root, prefix, |parts|);
    assert parts[..|parts|] == parts;
  }
}
