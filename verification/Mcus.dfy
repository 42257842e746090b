/** What a scan is made of for either entropy coder: MCUs, the table numbers of the components,
    and the restart interval that is still open. */
module Mcus {
  import opened RestartIntervals
  import opened ZigZag

  type Mcu = seq<Block>

  datatype Component = Component(dcTbl: nat, acTbl: nat)

  ghost predicate AllSized(membership: seq<nat>, mcus: seq<Mcu>) {
    forall j :: 0 <= j < |mcus| ==> |mcus[j]| == |membership|
  }

  /** The DC value of the last block of component ci before block b of MCU j; 0 if there is none. */
  function PreviousDc(membership: seq<nat>, mcus: seq<Mcu>, j: nat, b: nat, ci: nat): int
    requires AllSized(membership, mcus) && j < |mcus| && b <= |membership|
    decreases j, b
  {
    if b > 0 then
      if membership[b - 1] == ci then mcus[j][b - 1][0] else PreviousDc(membership, mcus, j, b - 1, ci)
    else if j > 0 then PreviousDc(membership, mcus, j - 1, |membership|, ci)
    else 0
  }

  /** The MCUs of the restart interval that is still open. */
  ghost function OpenMcus(interval: nat, mcus: seq<Mcu>): (open: seq<Mcu>)
    ensures |open| == OpenSize(interval, |mcus|)
    ensures forall i :: 0 <= i < |open| ==> open[i] == mcus[|mcus| - |open| + i]
  {
    mcus[|mcus| - OpenSize(interval, |mcus|)..]
  }

  /** The interval the next MCU joins: the open one, unless that is full. */
  ghost function Joined(interval: nat, mcus: seq<Mcu>): seq<Mcu> {
    if Full(interval, |mcus|) then [] else OpenMcus(interval, mcus)
  }

  lemma OpenGrows(interval: nat, mcus: seq<Mcu>, mcu: Mcu)
    ensures OpenMcus(interval, mcus + [mcu]) == Joined(interval, mcus) + [mcu]
  {
    OneMoreMcu(interval, |mcus|, 0);
  }

  lemma OpenBehind(interval: nat, mcus: seq<Mcu>)
    requires 0 < interval < |mcus|
    ensures OpenMcus(interval, mcus) == OpenMcus(interval, mcus[interval..])
  {
    assert OpenSize(interval, |mcus|) == OpenSize(interval, |mcus| - interval);
    DropTwice(mcus, interval, |mcus| - interval - OpenSize(interval, |mcus| - interval));
  }

  lemma DropTwice(mcus: seq<Mcu>, i: nat, j: nat)
    requires i + j <= |mcus|
    ensures mcus[i..][j..] == mcus[i + j..]
  {
  }

  lemma NoneClosed(interval: nat, mcus: seq<Mcu>)
    requires interval == 0 || |mcus| <= interval
    ensures OpenMcus(interval, mcus) == mcus
  {
  }
}
