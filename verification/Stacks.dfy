/**
 * The stacks that spawn_handler and fork_handler (kernel/fork.cpp) make for a new process.
 * Word k of a stack lies at its base address plus 4 * k.
 */
module Stacks {

  /**
   * The frame-pointer chain of a stack: the word at each offset holds the address of the word
   * at the next, and the word at the last offset is 0.
   */
  ghost predicate IsChain(words: seq<nat>, base: nat, chain: seq<nat>) {
    && base > 0 && chain != []
    && (forall i :: 0 <= i < |chain| ==> chain[i] < |words|)
    && (forall i :: 0 <= i < |chain| - 1 ==> words[chain[i]] == base + 4 * chain[i + 1])
    && words[chain[|chain| - 1]] == 0
  }

  /** A chain that ends visits no offset twice. */
  lemma {:induction false} ChainIsDistinct(words: seq<nat>, base: nat, chain: seq<nat>, i: nat, j: nat)
    requires IsChain(words, base, chain) && i < j < |chain|
    ensures chain[i] != chain[j]
    decreases |chain| - j
  {
    Link(words, base, chain, i);
    Link(words, base, chain, j);
    if j < |chain| - 1 && chain[i] == chain[j] {
      ChainIsDistinct(words, base, chain, i + 1, j + 1);
    }
  }

  lemma Link(words: seq<nat>, base: nat, chain: seq<nat>, i: nat)
    requires IsChain(words, base, chain) && i < |chain|
    ensures chain[i] < |words| && words[chain[i]] == if i < |chain| - 1 then base + 4 * chain[i + 1] else 0
  {
  }

  /** Unwinding has no choice: chains that start together are the same. */
  lemma {:induction false} OneChain(words: seq<nat>, base: nat, a: seq<nat>, b: seq<nat>)
    requires IsChain(words, base, a) && IsChain(words, base, b) && a[0] == b[0]
    ensures a == b
  {
    Link(words, base, a, 0);
    Link(words, base, b, 0);
    if |a| > 1 && |b| > 1 {
      TailIsChain(words, base, a);
      TailIsChain(words, base, b);
      OneChain(words, base, a[1..], b[1..]);
      assert a == [a[0]] + a[1..] && b == [b[0]] + b[1..];
    }
  }

  lemma TailIsChain(words: seq<nat>, base: nat, a: seq<nat>)
    requires IsChain(words, base, a) && |a| > 1
    ensures IsChain(words, base, a[1..])
  {
    var t := a[1..];
    forall i | 0 <= i < |t| - 1 ensures words[t[i]] == base + 4 * t[i + 1] {
      assert t[i] == a[i + 1] && t[i + 1] == a[i + 2];
    }
  }

  /** The words of a stack with the first n links moved over to another base. */
  ghost function Rebased(words: seq<nat>, base: nat, chain: seq<nat>, n: nat): (r: seq<nat>)
    requires n < |chain| && forall i :: 0 <= i < |chain| ==> chain[i] < |words|
    ensures |r| == |words|
  {
    if n == 0 then words else Rebased(words, base, chain, n - 1)[chain[n - 1] := base + 4 * chain[n]]
  }

  lemma {:induction false} RebasedElsewhere(words: seq<nat>, base: nat, chain: seq<nat>, n: nat, k: nat)
    requires n < |chain| && forall i :: 0 <= i < |chain| ==> chain[i] < |words|
    requires k < |words| && forall i :: 0 <= i < n ==> chain[i] != k
    ensures Rebased(words, base, chain, n)[k] == words[k]
  {
    if n > 0 {
      RebasedElsewhere(words, base, chain, n - 1, k);
    }
  }

  lemma {:induction false} RebasedLink(words: seq<nat>, base: nat, chain: seq<nat>, n: nat, i: nat)
    requires i < n < |chain| && forall i :: 0 <= i < |chain| ==> chain[i] < |words|
    requires forall i, j :: 0 <= i < j < |chain| ==> chain[i] != chain[j]
    ensures Rebased(words, base, chain, n)[chain[i]] == base + 4 * chain[i + 1]
  {
    if i < n - 1 {
      RebasedLink(words, base, chain, n - 1, i);
    }
  }

  /** The word the loop looks at is still the parent's: a link, or 0 at the end of the chain. */
  lemma RebasedAt(words: seq<nat>, esp: nat, base: nat, chain: seq<nat>, n: nat)
    requires IsChain(words, esp, chain) && n < |chain|
    ensures forall i :: 0 <= i < |chain| ==> chain[i] < |words|
    ensures Rebased(words, base, chain, n)[chain[n]] == if n < |chain| - 1 then esp + 4 * chain[n + 1] else 0
    ensures esp > 0
  {
    ChainFacts(words, esp, chain);
    RebasedElsewhere(words, base, chain, n, chain[n]);
    assert n < |chain| - 1 ==> words[chain[n]] == esp + 4 * chain[n + 1];
  }

  lemma ChainFacts(words: seq<nat>, base: nat, chain: seq<nat>)
    requires IsChain(words, base, chain)
    ensures chain != [] && base > 0 && forall i :: 0 <= i < |chain| ==> chain[i] < |words|
    ensures forall i, j :: 0 <= i < j < |chain| ==> chain[i] != chain[j]
  {
    forall i, j | 0 <= i < j < |chain| ensures chain[i] != chain[j] {
      ChainIsDistinct(words, base, chain, i, j);
    }
  }

  ghost predicate IsLink(chain: seq<nat>, k: nat) {
    exists i :: 0 <= i < |chain| - 1 && chain[i] == k
  }

  /**
   * The child's stack: every link of the parent's chain moved over, cut off behind the second
   * frame, whose return address is taskend; every other word is the parent's.
   */
  ghost predicate IsChild(child: seq<nat>, parent: seq<nat>, base: nat, chain: seq<nat>, taskend: nat)
    requires |chain| >= 2
  {
    var last := |chain| - 1;
    && |child| == |parent| && chain[1] + 1 < |child|
    && child[chain[1]] == 0 && child[chain[1] + 1] == taskend
    && (forall i :: 0 <= i < last && i != 1 && chain[i] != chain[1] + 1 ==>
          chain[i] < |child| && child[chain[i]] == base + 4 * chain[i + 1])
    && (forall k: nat :: k < |child| && !IsLink(chain, k) && k != chain[1] && k != chain[1] + 1 ==>
          child[k] == parent[k])
  }

  lemma ChildIs(parent: seq<nat>, esp: nat, base: nat, chain: seq<nat>, taskend: nat)
    requires IsChain(parent, esp, chain) && |chain| >= 2 && chain[1] + 1 < |parent|
    ensures forall i :: 0 <= i < |chain| ==> chain[i] < |parent|
    ensures var moved := Rebased(parent, base, chain, |chain| - 1);
      && moved[chain[0]] == base + 4 * chain[1]
      && IsChild(moved[chain[1] + 1 := taskend][chain[1] := 0], parent, base, chain, taskend)
  {
    hide Rebased;
    ChainFacts(parent, esp, chain);
    var last := |chain| - 1;
    var moved := Rebased(parent, base, chain, last);
    forall i | 0 <= i < last ensures moved[chain[i]] == base + 4 * chain[i + 1] {
      RebasedLink(parent, base, chain, last, i);
    }
    forall k: nat | k < |parent| && !IsLink(chain, k) ensures moved[k] == parent[k] {
      RebasedElsewhere(parent, base, chain, last, k);
    }
  }

  lemma WordsBetween(from: nat, k: nat)
    ensures (from + 4 * k - from) / 4 == k
  {
  }

  /** fork_handler: copies the words and moves the chain of saved frame pointers over. */
  method ForkStack(parent: seq<nat>, esp: nat, ebp: nat, base: nat, taskend: nat, ghost chain: seq<nat>)
    returns (stack: array<nat>)
    requires |parent| == 500 && IsChain(parent, esp, chain) && |chain| >= 2 && ebp == esp + 4 * chain[0]
    requires chain[1] + 1 < 500
    ensures fresh(stack) && stack.Length == 500
    ensures IsChild(stack[..], parent, base, chain, taskend)
  {
    hide IsChain, Rebased, IsChild;
    RebasedAt(parent, esp, base, chain, 0);
    ChildIs(parent, esp, base, chain, taskend);
    stack := new nat[500](i requires 0 <= i < 500 => parent[i]);
    assert stack[..] == parent;
    WordsBetween(esp, chain[0]);
    var old_ebp_offset := (ebp - esp) / 4;
    ghost var n := 0;
    NoneRebased(parent, base, chain);
    while true
      invariant 0 <= n < |chain| - 1 && old_ebp_offset == chain[n]
      invariant stack[..] == Rebased(parent, base, chain, n)
      decreases |chain| - n
    {
      RebasedAt(parent, esp, base, chain, n);
      WordsBetween(esp, chain[n + 1]);
      var next_ebp_offset := (stack[old_ebp_offset] - esp) / 4;
      stack[old_ebp_offset] := base + 4 * next_ebp_offset;
      OneMore(parent, base, chain, n);
      old_ebp_offset := next_ebp_offset;
      n := n + 1;
      RebasedAt(parent, esp, base, chain, n);
      if stack[old_ebp_offset] == 0 {
        break;
      }
    }
    old_ebp_offset := (ebp - esp) / 4;
    WordsBetween(base, chain[1]);
    old_ebp_offset := (stack[old_ebp_offset] - base) / 4;
    stack[old_ebp_offset + 1] := taskend;
    stack[old_ebp_offset] := 0;
  }

  lemma NoneRebased(words: seq<nat>, base: nat, chain: seq<nat>)
    requires chain != [] && forall i :: 0 <= i < |chain| ==> chain[i] < |words|
    ensures Rebased(words, base, chain, 0) == words
  {
  }

  lemma OneMore(words: seq<nat>, base: nat, chain: seq<nat>, n: nat)
    requires n + 1 < |chain| && forall i :: 0 <= i < |chain| ==> chain[i] < |words|
    ensures Rebased(words, base, chain, n + 1) == Rebased(words, base, chain, n)[chain[n] := base + 4 * chain[n + 1]]
  {
  }

  /**
   * Unwinding the child from its ebp visits the parent's first two frames, on the child's own
   * stack, and stops there, with taskend as the second return address.
   */
  lemma ChildUnwinds(child: seq<nat>, parent: seq<nat>, base: nat, chain: seq<nat>, taskend: nat, visited: seq<nat>)
    requires |chain| >= 2 && chain[0] != chain[1] && chain[0] != chain[1] + 1 && base > 0
    requires IsChild(child, parent, base, chain, taskend)
    ensures IsChain(child, base, visited) && visited[0] == chain[0] <==> visited == [chain[0], chain[1]]
    ensures child[chain[1] + 1] == taskend
  {
    assert chain[0] < |child| && child[chain[0]] == base + 4 * chain[1];
    var two := [chain[0], chain[1]];
    assert IsChain(child, base, two);
    if IsChain(child, base, visited) && visited[0] == chain[0] {
      OneChain(child, base, visited, two);
    }
  }

  /**
   * spawn_handler: the last seven words of the page.  The interrupt return takes the entry
   * point, the code segment and the flags from them.
   */
  method SpawnStack(proc: nat, cs: nat, eflags: nat, taskend: nat) returns (stack: array<nat>, top: nat)
    ensures fresh(stack) && stack.Length == 1024 && top == 1017
    ensures stack[top..] == [0x11_2211, 0x22_1122, proc, cs, eflags, 0, taskend]
  {
    stack := new nat[1024];
    top := 1024 - 1;
    stack[top] := taskend;
    top := top - 1;
    stack[top] := 0;
    top := top - 1;
    stack[top] := eflags;
    top := top - 1;
    stack[top] := cs;
    top := top - 1;
    stack[top] := proc;
    top := top - 1;
    stack[top] := 0x22_1122;
    top := top - 1;
    stack[top] := 0x11_2211;
  }
}
