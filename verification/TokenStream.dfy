/** The linked list of tokens between lexer and parser. */
module TokenStreams {
  import opened Arena
  import opened Tokens

  const SIZEOF_STREAM := 16
  const SIZEOF_NODE := 40

  function First(tokens: seq<Token>): Token {
    if tokens == [] then ZERO_TOKEN else tokens[0]
  }

  function Rest(tokens: seq<Token>): seq<Token> {
    if tokens == [] then [] else tokens[1..]
  }

  class TokenNode {
    const token: Token
    var next: TokenNode?

    constructor (token: Token)
      ensures this.token == token && next == null
    {
      this.token, next := token, null;
    }
  }

  ghost predicate Linked(nodes: seq<TokenNode>)
    reads nodes
  {
    && (forall i, j | 0 <= i < j < |nodes| :: nodes[i] != nodes[j])
    && forall i {:trigger nodes[i].next} | 0 <= i < |nodes| ::
         nodes[i].next == if i + 1 < |nodes| then nodes[i + 1] else null
  }

  ghost function Held(nodes: seq<TokenNode>): (r: seq<Token>)
    ensures |r| == |nodes| && forall i | 0 <= i < |r| :: r[i] == nodes[i].token
  {
    seq(|nodes|, i requires 0 <= i < |nodes| => nodes[i].token)
  }

  class TokenStream {
    var head: TokenNode?
    var current: TokenNode?
    /** The nodes from `current` on. */
    ghost var nodes: seq<TokenNode>

    constructor (head: TokenNode?, ghost nodes: seq<TokenNode>)
      requires Linked(nodes) && head == if nodes == [] then null else nodes[0]
      ensures Valid() && this.head == current == head && Remaining() == Held(nodes)
    {
      this.head, current, this.nodes := head, head, nodes;
    }

    ghost predicate Valid()
      reads this, nodes
    {
      Linked(nodes) && current == if nodes == [] then null else nodes[0]
    }

    ghost function Remaining(): seq<Token>
      reads this
    {
      Held(nodes)
    }

    lemma AtEnd()
      requires Valid()
      ensures current == null <==> Remaining() == []
    {
    }

    method Peek() returns (token: Token)
      requires Valid()
      ensures token == First(Remaining())
    {
      if current == null {
        return ZERO_TOKEN;
      }
      return current.token;
    }

    method Consume() returns (token: Token)
      requires Valid()
      modifies `current, `nodes
      ensures Valid()
      ensures token == First(old(Remaining())) && Remaining() == Rest(old(Remaining()))
    {
      if current == null {
        return ZERO_TOKEN;
      }
      token := current.token;
      current := current.next;
      nodes := nodes[1..];
    }
  }

  /** A new node behind the last one, which `current` names. */
  method AddNode(arena: MemoryArena, token: Token, ghost nodes: seq<TokenNode>, current: TokenNode?)
    returns (exited: bool, node: TokenNode)
    requires arena.Valid() && Linked(nodes) && current == if nodes == [] then null else nodes[|nodes| - 1]
    modifies arena, arena.buffer, nodes
    ensures arena.Valid() && exited == (Block(SIZEOF_NODE) > old(arena.Free()))
    ensures fresh(node) && node.token == token
    ensures !exited ==> Linked(nodes + [node]) && arena.Free() == old(arena.Free()) - Block(SIZEOF_NODE)
  {
    hide MemoryArena.Valid;
    var ok := arena.Reserve(SIZEOF_NODE);
    node := new TokenNode(token);
    if !ok {
      return true, node;
    }
    if current != null {
      LinkBehind(nodes, current, node);
    }
    exited := false;
  }

  method LinkBehind(ghost nodes: seq<TokenNode>, last: TokenNode, newNode: TokenNode)
    requires Linked(nodes) && nodes != [] && last == nodes[|nodes| - 1] && newNode !in nodes && newNode.next == null
    modifies last
    ensures Linked(nodes + [newNode])
  {
    last.next := newNode;
  }

  lemma NoNodesLinked()
    ensures Linked([])
  {
  }

  /** What the arena gives for a stream of `n` tokens. */
  function StreamSize(n: nat): nat {
    Block(SIZEOF_STREAM) + n * Block(SIZEOF_NODE)
  }

  /** build_token_stream; `exited` where the arena is exhausted. */
  method BuildTokenStream(arena: MemoryArena, allTokens: array?<Token>, totalTokenCount: int)
    returns (exited: bool, stream: TokenStream?)
    requires arena.Valid() && (allTokens != null ==> totalTokenCount <= allTokens.Length)
    modifies arena, arena.buffer
    ensures arena.Valid()
    ensures if allTokens == null || totalTokenCount <= 0 then !exited && arena.Free() == old(arena.Free())
            else exited == (StreamSize(totalTokenCount) > old(arena.Free()))
                 && (!exited ==> arena.Free() == old(arena.Free()) - StreamSize(totalTokenCount))
    ensures stream == null <==> exited || allTokens == null || totalTokenCount <= 0
    ensures stream != null ==> fresh(stream) && stream.Valid() && stream.head == stream.current
                               && stream.Remaining() == old(allTokens[..totalTokenCount])
  {
    hide MemoryArena.Valid, MemoryArena.Free, Linked;
    exited := false;
    if allTokens == null || totalTokenCount <= 0 {
      return false, null;
    }
    ghost var tokens := allTokens[..totalTokenCount];
    var ok := arena.Reserve(SIZEOF_STREAM);
    if !ok {
      return true, null;
    }
    var headNode: TokenNode?, currentNode: TokenNode? := null, null;
    ghost var nodes: seq<TokenNode> := [];
    NoNodesLinked();
    for i := 0 to totalTokenCount
      invariant arena.Valid() && allTokens[..totalTokenCount] == tokens
      invariant arena.Free() + StreamSize(i) == old(arena.Free())
      invariant |nodes| == i && Linked(nodes) && fresh(nodes)
      invariant headNode == if nodes == [] then null else nodes[0]
      invariant currentNode == if nodes == [] then null else nodes[i - 1]
      invariant Held(nodes) == tokens[..i]
    {
      var newNode;
      exited, newNode := AddNode(arena, allTokens[i], nodes, currentNode);
      if exited {
        return true, null;
      }
      if i == 0 {
        headNode := newNode;
      }
      currentNode := newNode;
      nodes := nodes + [newNode];
    }
    stream := new TokenStream(headNode, nodes);
  }
}
