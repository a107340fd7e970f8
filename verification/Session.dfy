/** The file manager's calls on the plugin, one after the other. */
module Session {
  import opened Effects
  import opened Plugin
  import opened Refinement

  function StateOf(core: PluginCore): State
    reads core.world, core.cache
  {
    State(core.world.Now(), core.cache.entries)
  }

  /** One call does to the world and the cache exactly what Next says. */
  method Perform(core: PluginCore, step: Step)
    modifies core.world, core.cache
    ensures StateOf(core) == Next(old(StateOf(core)), step, core.cache.ttl)
  {
    hide DeleteEffect, RemoveDirEffect, MakeDirEffect, RenameOrMoveEffect, SetTimeEffect, GetEffect, PutEffect, ListEffect;
    match step
    case ListDir(dir, env) =>
      var rows := core.ListDirectory(dir, env);
    case Delete(path, r) =>
      var ok := core.DeleteFile(path, r);
    case RemoveDir(path, r) =>
      var ok := core.RemoveDir(path, r);
    case MakeDir(path, r) =>
      var ok := core.MakeDir(path, r);
    case RenameOrMove(from, to, move, overwrite, env) =>
      var result := core.RenameOrMove(from, to, move, overwrite, env);
    case SetTime(path, mtime, strategy, env) =>
      var ok := core.SetModificationTime(path, mtime, strategy, env);
    case GetFile(path, localPath, flags, pid, env) =>
      var code := core.GetFile(path, localPath, flags, pid, env);
    case PutFile(localPath, path, flags, env) =>
      var code := core.PutFile(localPath, path, flags, env);
  }

  /** A fair run of calls on a plugin whose cache agrees with the devices leaves it in agreement. */
  method PerformAll(core: PluginCore, run: seq<Step>, ghost names: map<string, string>)
    requires NamesFit(names) && Agrees(names, core.world.phones, core.cache.entries)
    requires FairRun(names, StateOf(core), run, core.cache.ttl)
    modifies core.world, core.cache
    ensures StateOf(core) == AfterRun(old(StateOf(core)), run, core.cache.ttl)
    ensures Agrees(names, core.world.phones, core.cache.entries)
  {
    hide Agrees, NamesFit, Next, Fair;
    ghost var start := StateOf(core);
    for i := 0 to |run|
      invariant FairRun(names, StateOf(core), run[i..], core.cache.ttl)
      invariant AfterRun(StateOf(core), run[i..], core.cache.ttl) == AfterRun(start, run, core.cache.ttl)
    {
      assert run[i..][0] == run[i] && run[i..][1..] == run[i + 1..];
      Perform(core, run[i]);
    }
    RunKeeps(names, start, run, core.cache.ttl);
  }
}
