/** The device counters of a peer over runs of operations without traffic. */
module Counting {
  import WgConf
  import Junk
  import ConfEdit
  import opened PeerSystem
  import opened Consistency
  import Lifecycle
  import opened Leftovers
  import opened Runs
  import Metering

  /** The configured peer has an enabled row with this key. */
  ghost predicate Serves(s: System, name: string, key: string) {
    && name in ConfEdit.NamesOf(WgConf.Parsed(s.conf)) && name in s.table
    && s.table[name].enabled && s.table[name].publicKey == key
  }

  /** A revoke of the peer, a stop of it that the device accepts, or a reload. */
  predicate Interrupts(op: Op, name: string) {
    || (op.RevokeOp? && op.name == name) || (op.StopOp? && op.name == name && op.deviceOk) || op.ReloadOp?
  }

  lemma SyncServes(s: System, params: Params, junks: nat -> Junk.JunkParams, name: string, key: string)
    requires Orderly(s) && Serves(s, name, key)
    ensures Sync(s, params, junks).Ok? && Serves(Sync(s, params, junks).value, name, key)
  {
    SyncOfOrderly(s, params, junks);
  }

  lemma SyncStepServes(s: System, params: Params, op: Op, name: string, key: string)
    requires Orderly(s) && '.' in params.serverIPv4 && Serves(s, name, key) && op.SyncOp?
    ensures Serves(Apply(s, params, op), name, key)
  {
    SyncServes(s, params, op.junks, name, key);
    ApplySync(s, params, op);
  }

  lemma ResumeStepServes(s: System, params: Params, op: Op, name: string, key: string)
    requires Orderly(s) && '.' in params.serverIPv4 && Serves(s, name, key) && op.ResumeOp?
    ensures Serves(Apply(s, params, op), name, key)
  {
    SyncServes(s, params, op.junks, name, key);
    ResumeIsSync(s, params, op.junks);
    ApplyResume(s, params, op);
  }

  lemma SwitchServes(synced: System, other: string, deviceOk: bool, name: string, key: string)
    requires Serves(synced, name, key)
    ensures var found := FindPeer(WgConf.Parsed(synced.conf), other);
            && (other != name || !deviceOk ==> Serves(FinishStop(synced, found, other, deviceOk).0, name, key))
            && Serves(FinishStart(synced, found, other, deviceOk).0, name, key)
  {
  }

  lemma SwitchStepServes(s: System, params: Params, op: Op, name: string, key: string)
    requires Orderly(s) && '.' in params.serverIPv4 && Serves(s, name, key) && (op.StopOp? || op.StartOp?)
    requires !Interrupts(op, name)
    ensures Serves(Apply(s, params, op), name, key)
  {
    SyncServes(s, params, op.junks, name, key);
    SyncOfOrderly(s, params, op.junks);
    SwitchIsFinish(s, params, op.name, op.junks, op.deviceOk);
    SwitchServes(Sync(s, params, op.junks).value, op.name, op.deviceOk, name, key);
    ApplySwitch(s, params, op);
  }

  lemma CreateStepServes(s: System, params: Params, op: Op, name: string, key: string)
    requires Orderly(s) && Lifecycle.GoodParams(params) && Ordinary(s, params, op) && op.CreateOp?
    requires Serves(s, name, key)
    ensures Serves(Apply(s, params, op), name, key)
  {
    CreateKeepsOrderly(s, params, op.name, op.actor, op.secrets, op.deviceOk);
    ApplyCreate(s, params, op);
  }

  lemma OtherStepServes(s: System, params: Params, op: Op, name: string, key: string)
    requires Orderly(s) && '.' in params.serverIPv4 && Ordinary(s, params, op) && Serves(s, name, key)
    requires op.RevokeOp? || op.SetLimitOp? || op.GetConfigOp?
    requires !Interrupts(op, name)
    ensures Serves(Apply(s, params, op), name, key)
  {
    if op.RevokeOp? {
      RevokeKeepsOrderly(s, params, op.name, op.deviceOk);
      ApplyRevoke(s, params, op);
    } else if op.SetLimitOp? {
      SetLimitKeepsAgreement(s, op.name, op.limit);
      ApplySetLimit(s, params, op);
    } else {
      GetConfigKeepsAgreement(s, params, op.name, op.junk);
      ApplyGetConfig(s, params, op);
    }
  }

  lemma StepServes(s: System, params: Params, op: Op, name: string, key: string)
    requires Orderly(s) && Lifecycle.GoodParams(params) && Ordinary(s, params, op) && Serves(s, name, key)
    requires !Interrupts(op, name)
    ensures Serves(Apply(s, params, op), name, key)
  {
    if op.CreateOp? {
      CreateStepServes(s, params, op, name, key);
    } else if op.StopOp? || op.StartOp? {
      SwitchStepServes(s, params, op, name, key);
    } else if op.SyncOp? {
      SyncStepServes(s, params, op, name, key);
    } else if op.ResumeOp? {
      ResumeStepServes(s, params, op, name, key);
    } else {
      OtherStepServes(s, params, op, name, key);
    }
  }

  /** Over every run without an interruption of an enabled peer, whatever happens to
      others, it keeps its key and the device keeps its counters: the collector sees
      no drop. */
  lemma {:induction false} RunKeepsCounting(s: System, params: Params, ops: seq<Op>, name: string, key: string)
    requires Orderly(s) && Lifecycle.GoodParams(params) && AllOrdinary(s, params, ops) && Serves(s, name, key)
    requires forall op :: op in ops ==> !Interrupts(op, name)
    ensures Serves(Run(s, params, ops), name, key) && Metering.View(Run(s, params, ops), name) == Metering.View(s, name)
    decreases |ops|
  {
    if ops != [] {
      StepStaysOrderly(s, params, ops[0]);
      StepServes(s, params, ops[0], name, key);
      Metering.ViewFollows(s, params, ops[0], name);
      RunKeepsCounting(Apply(s, params, ops[0]), params, ops[1..], name, key);
    }
  }
}
