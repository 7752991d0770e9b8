/**
 * Label lists of the Prometheus collectors (internal/metrics/prometheus/utils.go):
 * every metric's label names are a shared base list extended with its own, so
 * the extension must copy rather than share the base list's backing array.
 */
module Labels {

  /**
   * deepAppend: a new list holding `src` followed by `appends`. The result is
   * a fresh array, so writing to it never changes `src`, and `src` itself is
   * left as it was.
   */
  method DeepAppend(src: array<string>, appends: seq<string>) returns (newList: array<string>)
    ensures fresh(newList)
    ensures newList[..] == src[..] + appends
  {
    newList := new string[src.Length];
    forall i | 0 <= i < src.Length {
      newList[i] := src[i];
    }
    assert newList[..] == src[..];
    if |appends| > 0 {
      var grown := new string[newList.Length + |appends|];
      for i := 0 to newList.Length
        modifies grown
        invariant grown[..i] == newList[..i]
      {
        grown[i] := newList[i];
      }
      for k := 0 to |appends|
        modifies grown
        invariant grown[..newList.Length] == newList[..]
        invariant grown[newList.Length..newList.Length + k] == appends[..k]
      {
        grown[newList.Length + k] := appends[k];
      }
      assert grown[..] == src[..] + appends;
      newList := grown;
    } else {
      assert src[..] + appends == src[..];
    }
  }
}
