/** The outside world as the backup trigger sees it: every network, file-system
    and clock call of server.go becomes a value handed to the model. */
module World {
  import opened Wrappers
  import opened Naming

  newtype byte = b: int | 0 <= b < 256

  /** One element of the discovery service's `node.nodes` array. */
  datatype Entry = Entry(key: string, value: string)

  /** What reading the reply body gives: a read failure, or the JSON document
      with its `node.nodes` array present or absent. */
  datatype Body = Unreadable(reason: string) | Document(nodes: Option<seq<Entry>>)

  /** Outcome of an HTTP request: a transport error, or a response. */
  datatype Reply = Failed(reason: string) | Response(status: int, body: Body)

  /** One `conn.Read(rwBuf)`: the bytes it filled and the error it returned. */
  datatype Read = Read(data: seq<byte>, err: Option<string>)

  /** The inputs of one request.
      head(url):  transport error of `http.Head(url)`, if any;
      get(url):   outcome of `http.Get(url)` followed by `ioutil.ReadAll`;
      dial(addr): error of `net.Dial("tcp", addr)`, if any;
      mkdir(dir): error of `os.MkdirAll(dir, 0644)`, if any;
      open(path): error of `os.OpenFile(path, O_WRONLY|O_CREATE|O_TRUNC, 0644)`, if any;
      now:        `time.Now()`;
      stream:     the successive results of `conn.Read`. */
  datatype Env = Env(
    head: string -> Option<string>,
    get: string -> Reply,
    dial: string -> Option<string>,
    mkdir: string -> Option<string>,
    open: string -> Option<string>,
    now: DateTime,
    stream: seq<Read>)

  /** The transport error Go's HTTP client raises for the URL built from an empty candidate,
      before any I/O. `http.Head` and `http.Get` wrap it in a `*url.Error`, whose
      text also names the method and the URL; only the inner error is kept. */
  const NoHostInUrl := "http: no Host in request URL"

  /** `http.Head("http://" + server + "/health")`. */
  function Probe(env: Env, server: string): (err: Option<string>)
    ensures server == "" ==> err == Some(NoHostInUrl)
  {
    if server == "" then Some(NoHostInUrl) else env.head("http://" + server + "/health")
  }

  /** `http.Get("http://" + server + "/v2/keys/mysql/" + cluster + "/nodes")`. */
  function QueryNodes(env: Env, server: string, cluster: string): (reply: Reply)
    ensures server == "" ==> reply == Failed(NoHostInUrl)
  {
    if server == "" then Failed(NoHostInUrl)
    else env.get("http://" + server + "/v2/keys/mysql/" + cluster + "/nodes")
  }
}
