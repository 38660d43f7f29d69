/**
 The part of an LLVM module that the static pass walks: values, their operands and their users.
 A value is an index into the graph; cycles are allowed (phi nodes, mutually recursive functions,
 self-referential initialisers).
 */
module ValueGraph {
  import opened Wrappers

  type Value = nat

  datatype Opcode = OpGetElementPtr | OpBitCast | OpOther

  datatype Kind =
    | Function(body: seq<Value>)                                      // its instructions
    | GlobalVariable(isConstant: bool, initializer: Option<Value>)
    | Memcpy
    | Store
    | Alloca
    | GetElementPtr
    | BitCast
    | Phi
    | Select
    | OtherInstruction
    | ConstantExpr(opcode: Opcode)
    | ConstantArray
    | OtherConstant
    | NonUser                                                         // arguments, basic blocks

  datatype Node = Node(kind: Kind, operands: seq<Value>, users: seq<Value>)

  datatype Graph = Graph(nodes: seq<Node>) {
    predicate Has(v: Value) { v < |nodes| }

    function KindOf(v: Value): Kind
      requires Has(v)
    {
      nodes[v].kind
    }

    predicate IsGlobalObject(v: Value) {
      Has(v) && (KindOf(v).Function? || KindOf(v).GlobalVariable?)
    }

    /** Functions are always constant; a variable says so itself. */
    predicate IsConstantGlobal(v: Value) {
      Has(v) && match KindOf(v) case Function(_) => true case GlobalVariable(c, _) => c case _ => false
    }
  }

  /** The global objects are the functions and the variables; constant are all functions and the constant variables. */
  lemma {:induction false} GlobalObjects(g: Graph, v: Value)
    requires g.Has(v)
    ensures g.IsGlobalObject(v) <==> g.nodes[v].kind.Function? || g.nodes[v].kind.GlobalVariable?
    ensures g.IsConstantGlobal(v) <==> g.nodes[v].kind.Function? || (g.nodes[v].kind.GlobalVariable? && g.nodes[v].kind.isConstant)
  {
  }

  /** The operand counts that each kind of value is guaranteed to have. */
  predicate ArityOk(n: Node) {
    match n.kind
    case Memcpy => |n.operands| >= 2
    case Store => |n.operands| == 2
    case GetElementPtr => |n.operands| >= 1
    case BitCast => |n.operands| == 1
    case Select => |n.operands| == 3
    case ConstantExpr(op) => op.OpOther? || |n.operands| >= 1
    case _ => true
  }

  predicate WellFormed(g: Graph) {
    forall v :: 0 <= v < |g.nodes| ==>
      var n := g.nodes[v];
      && ArityOk(n)
      && (forall i :: 0 <= i < |n.operands| ==> g.Has(n.operands[i]))
      && (forall i :: 0 <= i < |n.users| ==> g.Has(n.users[i]))
      && (n.kind.Function? ==> forall i :: 0 <= i < |n.kind.body| ==> g.Has(n.kind.body[i]))
      && (n.kind.GlobalVariable? && n.kind.initializer.Some? ==> g.Has(n.kind.initializer.value))
  }
}
