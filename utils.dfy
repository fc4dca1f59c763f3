/** The two pure helpers of index.js: `chunk` (split a list into batches) and
    `formatList` (the name list shown on the panel). */
module Utils {
  import opened Strings

  /** The concatenation of a list of batches. */
  function Flatten<T>(xss: seq<seq<T>>): seq<T>
  {
    if xss == [] then [] else Flatten(xss[..|xss| - 1]) + xss[|xss| - 1]
  }

  /** `chunk(arr, n)`: consecutive slices `arr.slice(i, i + n)` for i = 0, n, 2n, ...
      Together they are `arr` again; each is non-empty and at most `n` long, and all
      but the last are exactly `n` long. With `n == 0` the source loops for ever on a
      non-empty `arr`, so that is the one input it excludes. */
  method Chunk<T>(arr: seq<T>, n: nat) returns (out: seq<seq<T>>)
    requires n > 0 || arr == []
    ensures Flatten(out) == arr
    ensures forall k :: 0 <= k < |out| ==> 0 < |out[k]| <= n
    ensures forall k :: 0 <= k < |out| - 1 ==> |out[k]| == n
  {
    out := [];
    var i := 0;
    while i < |arr|
      invariant 0 <= i <= |arr|
      invariant Flatten(out) == arr[..i]
      invariant forall k :: 0 <= k < |out| ==> 0 < |out[k]| <= n
      invariant forall k :: 0 <= k < |out| - 1 ==> |out[k]| == n
      invariant i < |arr| ==> forall k :: 0 <= k < |out| ==> |out[k]| == n
      decreases |arr| - i
    {
      var j := if i + n <= |arr| then i + n else |arr|;
      var piece := arr[i..j];
      assert Flatten(out + [piece]) == Flatten(out) + piece by {
        assert (out + [piece])[..|out|] == out;
      }
      assert arr[..i] + arr[i..j] == arr[..j];
      out := out + [piece];
      i := j;
    }
    assert arr[..|arr|] == arr;
  }

  const NONE_TEXT := "_none_"

  /** How many names `formatList` shows before it summarises the rest. */
  const DEFAULT_MAX := 25

  /** `formatList(names, max)`: "_none_" for no names, all names joined by ", " when at
      most `max` of them, else the first `max` joined and ", +<rest> more". */
  function FormatList(names: seq<string>, max: nat := DEFAULT_MAX): (r: string)
  {
    if |names| == 0 then NONE_TEXT
    else if |names| <= max then Join(names, ", ")
    else Join(names[..max], ", ") + ", +" + NatToString(|names| - max) + " more"
  }

  /** The summary of an over-long list is exact: the count it prints reads back as the
      number of names left out, and the names before it are the first `max`. */
  lemma FormatListTruncated(names: seq<string>, max: nat)
    requires |names| > max
    ensures exists digits: string ::
      IsDecimal(digits)
      && FormatList(names, max) == Join(names[..max], ", ") + ", +" + digits + " more"
      && max + DecimalValue(digits) == |names|
  {
    var digits := NatToString(|names| - max);
    DecimalRoundTrip(|names| - max);
    assert FormatList(names, max) == Join(names[..max], ", ") + ", +" + digits + " more";
  }

  /** Every one of the first `max` names is printed, unchanged, at a known place. */
  lemma FormatListShows(names: seq<string>, max: nat, i: nat)
    requires i < |names| && i < max
    ensures var r := FormatList(names, max); var k := JoinOffset(names[..if |names| <= max then |names| else max], ", ", i);
      k + |names[i]| <= |r| && r[k..k + |names[i]|] == names[i]
  {
    if |names| <= max {
      assert names[..|names|] == names;
      JoinElementAt(names, ", ", i);
    } else {
      JoinElementAt(names[..max], ", ", i);
    }
  }
}
