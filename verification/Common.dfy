/** Small datatypes and string helpers shared by every module. */
module Common {

  datatype Option<+T> = None | Some(value: T)

  /** What a reconcile step reports: done, not done yet (with a reason), or an error. */
  datatype Outcome =
    | Done
    | NotReady(reason: string)
    | Failed(error: string)

  type Labels = map<string, string>

  /** Every label of `selector` is carried by `labels` with the same value. */
  predicate Selects(selector: Labels, labels: Labels) {
    forall k :: k in selector ==> k in labels && labels[k] == selector[k]
  }

  function Lookup(labels: Labels, key: string): Option<string> {
    if key in labels then Some(labels[key]) else None
  }

  /** `strings.Join(parts, ",")`. */
  function Join(parts: seq<string>): string {
    if parts == [] then ""
    else if |parts| == 1 then parts[0]
    else parts[0] + "," + Join(parts[1..])
  }

  lemma JoinIsEmptyIff(parts: seq<string>)
    requires forall i :: 0 <= i < |parts| ==> parts[i] != ""
    ensures Join(parts) == "" <==> parts == []
  {
  }

  lemma {:induction false} JoinInParts(parts: seq<string>, last: string)
    ensures Join(parts + [last]) == if parts == [] then last else Join(parts) + "," + last
    decreases |parts|
  {
    if parts == [] {
      assert parts + [last] == [last];
    } else {
      assert (parts + [last])[0] == parts[0] && (parts + [last])[1..] == parts[1..] + [last];
      JoinInParts(parts[1..], last);
    }
  }

  lemma AppendOptional<T>(before: seq<T>, present: bool, x: T, rest: seq<T>)
    ensures before + ((if present then [x] else []) + rest) == (if present then before + [x] else before) + rest
  {
  }

  function Max(a: int, b: int): int {
    if a < b then b else a
  }
}
