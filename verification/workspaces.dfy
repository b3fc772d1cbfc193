/**
 * The `get_workspaces` reply and the workspace numbering rule that the i3
 * daemon (`create_workspace`, `async_rename`) and the workspace restorer
 * (`load_workspace`) share: the next number is one more than the largest
 * number in use, counting from 0. i3 gives named workspaces without a number
 * the number -1.
 */
module Workspaces {
  import opened ConTree
  import Text

  datatype Workspace = Workspace(num: int, name: string, focused: bool, rect: Rect)

  /** The loop `num = w.num if num < w.num else num` started from 0. */
  function MaxNum(nums: seq<int>): (m: nat)
    ensures forall k :: 0 <= k < |nums| ==> nums[k] <= m
    ensures m == 0 || m in nums
  {
    if |nums| == 0 then 0
    else
      var rest := MaxNum(nums[..|nums| - 1]);
      var last := nums[|nums| - 1];
      if rest < last then last else rest
  }

  function Nums(wss: seq<Workspace>): (r: seq<int>)
    ensures |r| == |wss|
    ensures forall k :: 0 <= k < |wss| ==> r[k] == wss[k].num
  {
    if |wss| == 0 then [] else [wss[0].num] + Nums(wss[1..])
  }

  /** The number a new workspace gets: unused by every listed workspace. */
  function NextNum(wss: seq<Workspace>): (n: nat)
    ensures n >= 1
    ensures forall k :: 0 <= k < |wss| ==> wss[k].num < n
    ensures n == 1 || n - 1 in Nums(wss)
  {
    var nums := Nums(wss);
    var m := MaxNum(nums);
    assert forall k :: 0 <= k < |wss| ==> wss[k].num == nums[k] <= m;
    m + 1
  }

  /** The name of the first focused workspace, or `''` (`get_ws_name` of zoom_bar_d.py). */
  function FocusedName(wss: seq<Workspace>): (name: string)
    ensures (forall k :: 0 <= k < |wss| ==> !wss[k].focused) ==> name == ""
    ensures |wss| > 0 && wss[0].focused ==> name == wss[0].name
  {
    if |wss| == 0 then ""
    else if wss[0].focused then wss[0].name
    else FocusedName(wss[1..])
  }

  /** The name returned is that of the first focused workspace. */
  lemma {:induction false} FocusedNameIsFirstFocused(wss: seq<Workspace>, k: nat)
    requires k < |wss| && wss[k].focused
    requires forall i :: 0 <= i < k ==> !wss[i].focused
    ensures FocusedName(wss) == wss[k].name
    decreases k
  {
    if k > 0 {
      FocusedNameIsFirstFocused(wss[1..], k - 1);
    }
  }

  /**
   * The name `str(next) + suffix` that `create_workspace` and `load_workspace`
   * give a new workspace: when the suffix does not start with a digit, the
   * number reads back from the name and the suffix is what follows it.
   */
  lemma NumberedName(n: nat, suffix: string)
    requires |suffix| > 0 ==> !Text.IsDigit(suffix[0])
    ensures Text.LeadingDigits(Text.NatToString(n) + suffix) == Text.NatToString(n)
    ensures Text.ParseNat(Text.LeadingDigits(Text.NatToString(n) + suffix)) == n
    ensures Text.StripLeadingDigits(Text.NatToString(n) + suffix) == suffix
  {
    Text.LeadingDigitsOfConcat(Text.NatToString(n), suffix);
    Text.ParseNatToString(n);
  }
}
