/** `Array.prototype.splice(start, 1)` as a pure function on sequences. */
module ArrayOps {

  /** The position `splice` starts at: a negative start counts from the end
      and is clamped at 0, a start past the end is clamped to the length. */
  function SpliceStart(len: nat, start: int): (from: nat)
    ensures from <= len
  {
    if start < 0 then (if len + start < 0 then 0 else len + start)
    else if start > len then len
    else start
  }

  /** `s` after `s.splice(start, 1)`: at most one element, the one at the
      clamped start, is removed. */
  function SpliceOne<T>(s: seq<T>, start: int): (r: seq<T>)
    ensures 0 <= start < |s| ==> r == s[..start] + s[start + 1..]
    ensures start == -1 && 0 < |s| ==> r == s[..|s| - 1]
    ensures |s| == 0 ==> r == []
    ensures |s| <= start ==> r == s
  {
    var from := SpliceStart(|s|, start);
    if from < |s| then s[..from] + s[from + 1..] else s
  }
}
