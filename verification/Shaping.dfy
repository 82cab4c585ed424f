/** Traffic-shaping keyword arguments handed to the link substrate
    (`_tc_link_kwargs`). */
module Shaping {
  import opened Wrappers

  /** A keyword value. Floating-point parameters are carried as `real`
      and never computed with. */
  datatype Value = Float(f: real) | Flag(b: bool) | Text(s: string) | Int(n: int)

  type Kwargs = map<string, Value>

  /** The only keys the builder can emit. */
  const ShapingKeys: set<string> := {"bw", "use_htb", "delay", "jitter", "loss", "max_queue_size"}

  /** Builds the keyword map key by key, in `_tc_link_kwargs`'s key order: a numeric
      option is included when it is not `None` (so a loss of 0 is kept), a
      string option only when it is truthy. */
  function TcLinkKwargs(bw: Option<real>, delay: Option<string>, jitter: Option<string>,
                        loss: Option<real>, queue: Option<int>): (r: Kwargs)
    ensures r.Keys <= ShapingKeys
    ensures "bw" in r <==> bw.Some?
    ensures "use_htb" in r <==> bw.Some?
    ensures bw.Some? ==> r["bw"] == Float(bw.value) && r["use_htb"] == Flag(true)
    ensures "delay" in r <==> Truthy(delay)
    ensures Truthy(delay) ==> r["delay"] == Text(delay.value)
    ensures "jitter" in r <==> Truthy(jitter)
    ensures Truthy(jitter) ==> r["jitter"] == Text(jitter.value)
    ensures "loss" in r <==> loss.Some?
    ensures loss.Some? ==> r["loss"] == Float(loss.value)
    ensures "max_queue_size" in r <==> queue.Some?
    ensures queue.Some? ==> r["max_queue_size"] == Int(queue.value)
  {
    var k0: Kwargs := map[];
    var k1 := if bw.Some? then k0["bw" := Float(bw.value)]["use_htb" := Flag(true)] else k0;
    var k2 := if Truthy(delay) then k1["delay" := Text(delay.value)] else k1;
    var k3 := if Truthy(jitter) then k2["jitter" := Text(jitter.value)] else k2;
    var k4 := if loss.Some? then k3["loss" := Float(loss.value)] else k3;
    if queue.Some? then k4["max_queue_size" := Int(queue.value)] else k4
  }
}
