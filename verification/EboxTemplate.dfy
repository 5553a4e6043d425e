/** How templates are put together (ebox.c): which configurations ebox_create can be given. */
module EboxTemplate {
  import opened Bits
  import opened Buffers
  import opened EboxFormat
  import opened Ebox
  import EboxFile

  /** The fields of a configuration that matter here: m is its own count of the parts. */
  datatype Draft = Draft(kind: byte, n: byte, m: byte, parts: seq<TplPart>)

  /** The calls that change a configuration. */
  datatype Op = SetN(n: nat) | Add(part: TplPart) | Remove(at: nat)

  /** Whether ebox_tpl_config_set_n accepts. */
  predicate MaySet(d: Draft, n: nat) {
    n != 0 && n <= d.m && (n == 1 || d.kind != EBOX_PRIMARY)
  }

  function Step(d: Draft, op: Op): Draft {
    match op
    case SetN(n) => if MaySet(d, n) then d.(n := n) else d
    case Add(p) => d.(m := (d.m + 1) % 256, parts := d.parts + [p])
    case Remove(i) => if i < |d.parts| then d.(parts := d.parts[..i] + d.parts[i + 1..]) else d
  }

  function Steps(d: Draft, ops: seq<Op>): Draft {
    if ops == [] then d else Step(Steps(d, ops[..|ops| - 1]), ops[|ops| - 1])
  }

  function Allocated(kind: byte): Draft {
    Draft(kind, if kind == EBOX_PRIMARY then 1 else 0, 0, [])
  }

  /** struct ebox_tpl_config. */
  class Config {
    var kind: byte
    var n: byte
    var m: byte
    var parts: seq<TplPart>

    function ToDraft(): Draft
      reads this
    {
      Draft(kind, n, m, parts)
    }

    /** ebox_tpl_config_alloc. */
    constructor (kind: byte)
      ensures ToDraft() == Allocated(kind)
    {
      this.kind, n, m, parts := kind, 0, 0, [];
      new;
      if kind == EBOX_PRIMARY {
        n := 1;
      }
    }

    /** ebox_tpl_config_set_n. */
    method SetN(v: nat) returns (ok: bool)
      modifies this`n
      ensures ok == MaySet(old(ToDraft()), v) && ToDraft() == Step(old(ToDraft()), Op.SetN(v))
    {
      if v == 0 {
        return false;
      }
      if v > m {
        return false;
      }
      if v != 1 && kind == EBOX_PRIMARY {
        return false;
      }
      n := v;
      return true;
    }

    /** ebox_tpl_config_add_part. */
    method AddPart(p: TplPart)
      modifies this`m, this`parts
      ensures ToDraft() == Step(old(ToDraft()), Add(p))
    {
      parts := parts + [p];
      m := (m + 1) % 256;
    }

    /** ebox_tpl_config_remove_part, for a part of this configuration.  The count stays. */
    method RemovePart(i: nat)
      requires i < |parts|
      modifies this`parts
      ensures ToDraft() == Step(old(ToDraft()), Remove(i))
    {
      parts := parts[..i] + parts[i + 1..];
    }

    /** Any calls, in any order. */
    method Perform(ops: seq<Op>)
      modifies this
      ensures ToDraft() == Steps(old(ToDraft()), ops)
    {
      for k := 0 to |ops|
        invariant ToDraft() == Steps(old(ToDraft()), ops[..k])
      {
        assert ops[..k + 1][..k] == ops[..k];
        match ops[k]
        case SetN(v) =>
          var ok := SetN(v);
        case Add(p) =>
          AddPart(p);
        case Remove(i) =>
          if i < |parts| {
            RemovePart(i);
          }
      }
      assert ops[..|ops|] == ops;
    }
  }

  /** Whatever is called, a primary keeps n = 1. */
  lemma {:induction false} PrimaryIsUnsplit(kind: byte, ops: seq<Op>)
    ensures var d := Steps(Allocated(kind), ops); d.kind == kind && (kind == EBOX_PRIMARY ==> d.n == 1)
  {
    if ops != [] {
      PrimaryIsUnsplit(kind, ops[..|ops| - 1]);
    }
  }

  /** How many parts the calls add, and how many they take away. */
  function Added(ops: seq<Op>): nat {
    if ops == [] then 0 else Added(ops[..|ops| - 1]) + if ops[|ops| - 1].Add? then 1 else 0
  }

  function Removed(d: Draft, ops: seq<Op>): nat {
    if ops == [] then 0
    else
      var before := ops[..|ops| - 1];
      var op := ops[|ops| - 1];
      Removed(d, before) + if op.Remove? && op.at < |Steps(d, before).parts| then 1 else 0
  }

  /** The count that is written to the file is the number of parts exactly if none was removed. */
  lemma {:induction false} CountIsRight(kind: byte, ops: seq<Op>)
    ensures var d := Steps(Allocated(kind), ops);
      && |d.parts| + Removed(Allocated(kind), ops) == Added(ops) && d.m == Added(ops) % 256
      && (Added(ops) < 256 ==> (d.m == |d.parts| <==> Removed(Allocated(kind), ops) == 0))
  {
    if ops != [] {
      CountIsRight(kind, ops[..|ops| - 1]);
    }
  }

  /** A recovery configuration never asks for more parts than it counts. */
  lemma {:induction false} NeverTooMany(ops: seq<Op>)
    requires Added(ops) < 256
    ensures Steps(Allocated(EBOX_RECOVERY), ops).n <= Added(ops)
  {
    if ops != [] {
      NeverTooMany(ops[..|ops| - 1]);
      CountIsRight(EBOX_RECOVERY, ops[..|ops| - 1]);
      PrimaryIsUnsplit(EBOX_RECOVERY, ops[..|ops| - 1]);
    }
  }

  /** But after a removal it may ask for more than it has. */
  method RemovalIsNotCounted(p: TplPart, q: TplPart) returns (c: Config, ok: bool)
    ensures fresh(c) && ok && c.n == c.m == 2 && c.parts == [q]
  {
    c := new Config(EBOX_RECOVERY);
    c.AddPart(p);
    c.AddPart(q);
    c.RemovePart(0);
    ok := c.SetN(2);
  }

  /** The tests of sshbuf_get_ebox_tpl_config on the type and n of a configuration in a file. */
  function Parsed(kind: byte, n: byte, parts: seq<TplPart>): Option<TplConfig> {
    if kind != EBOX_PRIMARY && kind != EBOX_RECOVERY then None
    else if kind == EBOX_PRIMARY && n > 1 then None
    else Some(TplConfig(kind, n, parts))
  }

  /** The configurations that come out of the calls above or out of a file. */
  ghost predicate Built(tc: TplConfig) {
    || (exists kind, ops {:trigger Steps(Allocated(kind), ops)} ::
          var d := Steps(Allocated(kind), ops); tc == TplConfig(d.kind, d.n, d.parts))
    || Parsed(tc.kind, tc.n, tc.parts) == Some(tc)
  }

  /** None of them is a split primary. */
  lemma BuiltIsUnsplit(tc: TplConfig)
    requires Built(tc)
    ensures !EboxFile.SplitPrimary(tc.kind, tc.n)
  {
    if Parsed(tc.kind, tc.n, tc.parts) != Some(tc) {
      var kind, ops :| var d := Steps(Allocated(kind), ops); tc == TplConfig(d.kind, d.n, d.parts);
      PrimaryIsUnsplit(kind, ops);
    }
  }
}
