/** The process-wide setting `PARALLEL_NETWORK` of src/main.rs: a `OnceLock<usize>`
    holding the limit on simultaneous network requests. */
module Settings {
  import opened Wrappers

  /** Used by `download` when the limit was never set. */
  const DEFAULT_PARALLEL_NETWORK: nat := 10

  /** `std::sync::OnceLock`: empty until its first successful `set`, unchangeable after. */
  class OnceCell {
    var contents: Option<nat>

    constructor()
      ensures contents == None
    {
      contents := None;
    }

    /** `OnceLock::set`: stores `v` when empty; `accepted` is `Ok(())` in Rust. */
    method Set(v: nat) returns (accepted: bool)
      modifies this
      ensures accepted <==> old(contents).None?
      ensures contents == if old(contents).None? then Some(v) else old(contents)
    {
      accepted := contents.None?;
      if accepted {
        contents := Some(v);
      }
    }

    /** `OnceLock::get_or_init(|| init)`. */
    method GetOrInit(init: nat) returns (v: nat)
      modifies this
      ensures old(contents).Some? ==> v == old(contents).value && contents == old(contents)
      ensures old(contents).None? ==> v == init && contents == Some(init)
    {
      if contents.None? {
        contents := Some(init);
      }
      v := contents.value;
    }
  }
}
