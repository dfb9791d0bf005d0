/** Recovery of the three state records from the meta store. */
module MetaValue {
  import opened Wrappers
  import opened RaftTypes
  import opened MetaKey
  import opened StorageState
  import opened Engines

  method GetRaftLocalState(engines: Engines) returns (r: Outcome<LocalState>)
    requires engines.Valid()
    ensures r == GetLocalState(engines.disk.meta)
  {
    var value := engines.ReadMeta(LocalKey);
    if value.Failure? {
      return Ok(LocalState(NO_HARD_STATE, 0, 0));
    }
    if !value.value.LocalRecord? {
      return Panic;
    }
    return Ok(value.value.local);
  }

  method GetRaftApplyState(engines: Engines) returns (r: Outcome<ApplyState>)
    requires engines.Valid()
    ensures r == GetApplyState(engines.disk.meta)
  {
    var value := engines.ReadMeta(ApplyKey);
    if value.Failure? {
      return Ok(ApplyState(0, 0, 0));
    }
    if !value.value.ApplyRecord? {
      return Panic;
    }
    return Ok(value.value.apply);
  }

  method GetRaftConfState(engines: Engines) returns (r: Outcome<ConfState>)
    requires engines.Valid()
    ensures r == GetConfState(engines.disk.meta)
  {
    var value := engines.ReadMeta(ConfKey);
    if value.Failure? {
      return Ok(NO_CONF_STATE);
    }
    if !value.value.ConfRecord? {
      return Panic;
    }
    return Ok(value.value.conf);
  }
}
