/** The numbers of catalogued findings, and the id the next promoted draft gets. */
module FindingIds {
  import opened Bytes
  import opened Findings
  import opened Decimals

  const MAX := 0xFFFF_FFFF
  const PREFIX := "EFF-2026-"
  const SUFFIX := ".md"

  /** The number in a catalog file's name. */
  function IdNumber(name: string): (r: Option<nat>)
    ensures r.Some? ==> r.value <= MAX
  {
    if |name| > 3 && name[|name| - 3..] == SUFFIX && PREFIX <= name[..|name| - 3]
    then ParseUnsigned(name[9..|name| - 3], MAX) else None
  }

  /** The largest number among the names, zero if there is none. */
  function Highest(names: seq<string>): (m: nat)
    ensures m <= MAX
    ensures forall name <- names :: IdNumber(name).Some? ==> IdNumber(name).value <= m
    ensures m == 0 || exists name <- names :: IdNumber(name) == Some(m)
  {
    if names == [] then 0 else
    var last := names[|names| - 1];
    var m := Highest(names[..|names| - 1]);
    assert forall name <- names :: name == last || name in names[..|names| - 1];
    if IdNumber(last).Some? && IdNumber(last).value > m then IdNumber(last).value else m
  }

  function IdOf(n: nat): string { PREFIX + Padded(n, 3) }
  function FileOf(id: string): string { id + SUFFIX }

  /** One more than the largest number, saturating. */
  function NextId(names: seq<string>): string {
    var m := Highest(names);
    IdOf(if m == MAX then MAX else m + 1)
  }

  method AllocateNextId(names: seq<string>) returns (id: string)
    ensures id == NextId(names)
  {
    hide IdNumber;
    var highest: nat := 0;
    for i := 0 to |names|
      invariant highest == Highest(names[..i])
    {
      assert names[..i + 1][..i] == names[..i];
      var n := IdNumber(names[i]);
      if n.Some? && n.value > highest {
        highest := n.value;
      }
    }
    assert names[..|names|] == names;
    id := IdOf(if highest == MAX then MAX else highest + 1);
  }

  // ---- a number reads back from the name made of it ----

  lemma IdReadsBack(n: nat)
    requires n <= MAX
    ensures IdNumber(FileOf(IdOf(n))) == Some(n)
  {
    PaddedReadsBack(n, 3);
    hide Padded;
    var s := Padded(n, 3);
    assert s[0] in s;
    var name := FileOf(IdOf(n));
    assert name[..|name| - 3] == PREFIX + s && name[9..|name| - 3] == s && name[|name| - 3..] == SUFFIX;
  }

  lemma IdIsPlain(n: nat)
    ensures PlainId(IdOf(n))
  {
    PaddedReadsBack(n, 3);
    hide Padded;
    var s, id := Padded(n, 3), IdOf(n);
    assert id[|id| - 1] == s[|s| - 1] && s[|s| - 1] in s;
  }

  // ---- the new id ----

  /**
    * The new id's number is above every catalogued one, so its file name is taken only when the numbers have run
    * out and the last of them is already catalogued under its usual name.
    */
  lemma NextIdIsFree(names: seq<string>)
    ensures FileOf(NextId(names)) in names <==> FileOf(IdOf(MAX)) in names
    ensures Highest(names) < MAX ==> IdNumber(FileOf(NextId(names))) == Some(Highest(names) + 1)
  {
    hide IdNumber;
    var m := Highest(names);
    IdReadsBack(MAX);
    IdReadsBack(if m == MAX then MAX else m + 1);
  }

  /** Promotion from start to end: where the draft goes and what it says there. */
  lemma PromotedReadsBack(names: seq<string>, body: string, promoted: string)
    requires FrontmatterOf(body).Accepted?
    requires Rewritten(body, NextId(names), FrontmatterOf(body).front.raw) == Some(promoted)
    ensures FrontmatterOf(promoted).Accepted?
    ensures FrontmatterOf(promoted).front.fields == FrontmatterOf(body).front.fields
    ensures FrontmatterOf(promoted).front.id + SUFFIX == FileOf(NextId(names))
  {
    hide FrontmatterOf;
    hide Rewritten;
    IdIsPlain(if Highest(names) == MAX then MAX else Highest(names) + 1);
    PromotionKeepsFrontmatter(body, NextId(names));
  }
}
