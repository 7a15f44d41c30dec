/** The recycle bin shows only the first 17 Chinese or 34 Latin characters of a name, so distinct
    items can look alike. The listing loops tell them apart with a counter: a name already emitted
    gets `(k)` appended, where `k` counts the repeats since the last fresh name. */
module Repeats {
  import opened Strings

  /** The loop state: the names emitted so far (`dir_name_list`, `file_name_list`) and `counter`. */
  datatype Tally = Tally(seen: seq<string>, counter: nat)

  const Start: Tally := Tally([], 1)

  /** `f'{name}({k})'` */
  function Numbered(name: string, k: nat): (r: string)
    ensures |r| > |name| && IsPrefix(name, r)
  {
    name + "(" + Decimal(k) + ")"
  }

  /** The name the loop body emits for `name` in state `t`. */
  function Rename(t: Tally, name: string): (r: string)
    ensures IsPrefix(name, r)
    ensures r == name <==> name !in t.seen
  {
    if name in t.seen then Numbered(name, t.counter + 1) else name
  }

  /** The state after the loop body has handled `name`. */
  function Record(t: Tally, name: string): (r: Tally)
    ensures r.seen == t.seen + [Rename(t, name)]
  {
    if name in t.seen then Tally(t.seen + [Rename(t, name)], t.counter + 1)
    else Tally(t.seen + [name], 1)
  }

  /** The names the loop emits for `names`, starting in state `t`. */
  function DedupFrom(t: Tally, names: seq<string>): (r: seq<string>)
    ensures |r| == |names|
    decreases |names|
  {
    if names == [] then [] else [Rename(t, names[0])] + DedupFrom(Record(t, names[0]), names[1..])
  }

  function Dedup(names: seq<string>): (r: seq<string>)
    ensures |r| == |names|
  {
    DedupFrom(Start, names)
  }

  /** One step of the loop: the rest of the work from position `i`. */
  lemma DedupStep(t: Tally, names: seq<string>, i: nat)
    requires i < |names|
    ensures DedupFrom(t, names[i..]) == [Rename(t, names[i])] + DedupFrom(Record(t, names[i]), names[i + 1..])
  {
    assert names[i..][1..] == names[i + 1..];
  }

  /** The loop in terms of its outputs so far: `done` holds the first `i` emitted names, and one
      more loop body emits the next one. */
  lemma DedupAdvance(done: seq<string>, counter: nat, names: seq<string>, i: nat, name: string, next: nat)
    requires i < |names| && |done| == i
    requires done + DedupFrom(Tally(done, counter), names[i..]) == Dedup(names)
    requires name == Rename(Tally(done, counter), names[i])
    requires Tally(done + [name], next) == Record(Tally(done, counter), names[i])
    ensures Dedup(names)[i] == name
    ensures (done + [name]) + DedupFrom(Tally(done + [name], next), names[i + 1..]) == Dedup(names)
  {
    DedupStep(Tally(done, counter), names, i);
    assert (done + DedupFrom(Tally(done, counter), names[i..]))[i] == name;
    assert done + ([name] + DedupFrom(Tally(done + [name], next), names[i + 1..]))
      == (done + [name]) + DedupFrom(Tally(done + [name], next), names[i + 1..]);
  }

  /** Each emitted name starts with its input name, and it is that name unchanged exactly when
      the name is not among those emitted before it. */
  lemma {:induction false} DedupEntry(t: Tally, names: seq<string>, i: nat)
    requires i < |names|
    ensures IsPrefix(names[i], DedupFrom(t, names)[i])
    ensures DedupFrom(t, names)[i] == names[i] <==> names[i] !in t.seen + DedupFrom(t, names)[..i]
    decreases i
  {
    var r := DedupFrom(t, names);
    if i > 0 {
      var t' := Record(t, names[0]);
      DedupEntry(t', names[1..], i - 1);
      assert r[i] == DedupFrom(t', names[1..])[i - 1];
      assert t'.seen + DedupFrom(t', names[1..])[..i - 1] == t.seen + r[..i];
    }
  }

  /** From the start of a listing: a name is left alone exactly when no earlier output equals it. */
  lemma DedupFreshIff(names: seq<string>, i: nat)
    requires i < |names|
    ensures Dedup(names)[i] == names[i] <==> names[i] !in Dedup(names)[..i]
  {
    DedupEntry(Start, names, i);
    assert Start.seen + Dedup(names)[..i] == Dedup(names)[..i];
  }

  /** A fresh name resets the counter: its first repeat is numbered 2 again. */
  lemma FreshResets(t: Tally, x: string)
    requires x !in t.seen
    ensures DedupFrom(t, [x, x]) == [x, Numbered(x, 2)]
  {
    var t' := Record(t, x);
    assert t' == Tally(t.seen + [x], 1);
    assert [x, x][1..] == [x];
    assert DedupFrom(t', [x]) == [Numbered(x, 2)];
  }

  /** A leading run `x, x, x` becomes `x, x(2), x(3)`. */
  lemma LeadingRun(x: string)
    ensures Dedup([x, x, x]) == [x, Numbered(x, 2), Numbered(x, 3)]
  {
    var t1 := Record(Start, x);
    assert t1 == Tally([x], 1);
    var t2 := Record(t1, x);
    assert t2 == Tally([x, Numbered(x, 2)], 2);
    assert [x, x, x][1..] == [x, x] && [x, x][1..] == [x];
    assert DedupFrom(t2, [x]) == [Numbered(x, 3)];
    assert DedupFrom(t1, [x, x]) == [Numbered(x, 2)] + DedupFrom(t2, [x]);
    assert Dedup([x, x, x]) == [x] + DedupFrom(t1, [x, x]);
  }

  /** The names are not made unique: in `x, x, y, x` the counter restarts at `y`, so the second
      and the fourth names are both `x(2)`. */
  lemma RestartRepeats(x: string, y: string)
    requires y != x && y != Numbered(x, 2)
    ensures Dedup([x, x, y, x]) == [x, Numbered(x, 2), y, Numbered(x, 2)]
  {
    var t1 := Record(Start, x);
    assert t1 == Tally([x], 1);
    var t2 := Record(t1, x);
    assert t2 == Tally([x, Numbered(x, 2)], 2);
    var t3 := Record(t2, y);
    assert t3 == Tally([x, Numbered(x, 2), y], 1);
    assert [x, x, y, x][1..] == [x, y, x] && [x, y, x][1..] == [y, x] && [y, x][1..] == [x];
    assert DedupFrom(t3, [x]) == [Numbered(x, 2)];
    assert DedupFrom(t2, [y, x]) == [y] + DedupFrom(t3, [x]);
    assert DedupFrom(t1, [x, y, x]) == [Numbered(x, 2)] + DedupFrom(t2, [y, x]);
    assert Dedup([x, x, y, x]) == [x] + DedupFrom(t1, [x, y, x]);
  }
}
