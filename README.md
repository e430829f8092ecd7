# XSVM end-to-end test: validator bookkeeping and the streaming ping check

This project models the sequential logic of the XSVM end-to-end test driver
(`tests/e2e/vms/xsvm.go`) of avalanchego and proves properties of it in Dafny:

- **Validator lookup** (`getNodesForIDs`): among the network's nodes, collect
  those whose node ID occurs in a subnet's list of validator IDs. The nested
  loop appends each node once per matching ID, in the order of the nodes.
  `Validators.GetNodesForIDs` is a method with the same two loops. It is proved
  against the functional specification `Validators.Select`, and the lemmas
  state the properties of `Select`: membership, order, length and duplicates.
- **Validator split** (`XSVMSubnetsOrPanic`): with more than one node, subnet
  A gets the nodes before the midpoint `len/2` and subnet B gets the rest.
  Otherwise both subnets get every node. `Validators.SplitValidators` is a
  pure function. The lemmas show that the halves partition the nodes and that
  their validator ID sets are disjoint. They also show that the scenario's
  later lookups of each subnet's validators, over any network list that holds
  the split nodes, find exactly that half's nodes, each once. When the network
  list is the split list itself, each lookup gives back its half in order.
- **Streaming ping exchange**: the sender loop sends `"ping-0"` ..
  `"ping-(n-1)"` and stops at the first failed send. The receiver loop
  accepts n replies only if reply i is `"ping-i"`. It fails at the first
  missing, failed or mismatched reply. Each loop is a method over sequences.
  The stream is an input: the replies as a sequence, and the outcome of each
  send as a function. `Decimal.FormatNat` renders `%d` for non-negative
  integers, so the messages are concrete strings. `Decimal.ParseNat` is its
  inverse. The round trip (`Decimal.ParseFormat`) gives
  `Decimal.FormatInjective`, and from it `StreamPing.PingInjective` proves
  that distinct indices give distinct messages.

Modules: `Validators` (validators.dfy), `Decimal` (decimal.dfy) and
`StreamPing` (stream_ping.dfy, which imports `Decimal`).

## Model

| member | source | states |
|---|---|---|
| Validators.GetNodesForIDs | tests/e2e/vms/xsvm.go:269-279 | The result is what the nested loops build (`Select`). It holds exactly the nodes whose ID occurs in `nodeIDs`, and its length is the number of matching (node, id) pairs. |
| Validators.MatchesAreCopies | tests/e2e/vms/xsvm.go:272-276 | The inner loop appends the node once for every entry of `nodeIDs` equal to its ID, and appends nothing else. |
| Validators.SelectMembership | tests/e2e/vms/xsvm.go:271-276 | Soundness and completeness: a node is in the result if and only if it is in `nodes` and its ID is in `nodeIDs`. |
| Validators.SelectAppend | tests/e2e/vms/xsvm.go:271-277 | The result for `a + b` is the result for `a` followed by the result for `b`. Nodes keep the order of the outer loop. |
| Validators.SelectOrder | tests/e2e/vms/xsvm.go:270-278 | In the result, each node sits between the matches of the nodes before it and those after it, repeated once per matching ID. |
| Validators.SelectLength | tests/e2e/vms/xsvm.go:270-278 | The result length equals the number of (node, id) pairs with equal IDs. |
| Validators.SelectIsFilter | tests/e2e/vms/xsvm.go:271-276 | With distinct IDs in `nodeIDs`, the lookup equals an order-preserving filter that keeps each matching node once. |
| Validators.SelectNoDuplicates | tests/e2e/vms/xsvm.go:270-278 | With distinct IDs and distinct nodes, the result has no duplicates. |
| Validators.LookupOwnPart | tests/e2e/vms/xsvm.go:269-279 | Among nodes with distinct IDs, looking up the IDs of a contiguous part of them returns exactly that part. |
| Validators.SplitValidators | tests/e2e/vms/xsvm.go:43-50 | With at most one node, both subnets get the whole list. With more, A followed by B is the list, both halves are non-empty, and B is as long as A or one longer. |
| Validators.SplitDisjoint | tests/e2e/vms/xsvm.go:45-49 | With more than one node and distinct node IDs, no ID validates both subnet A and subnet B. |
| Validators.SplitCovers | tests/e2e/vms/xsvm.go:43-50 | Every node validates subnet A or subnet B, and neither subnet gets a node that is not in the list. |
| Validators.LookupFindsPart | tests/e2e/vms/xsvm.go:269-279 | Among network nodes with distinct IDs that include every node of `part`, looking up the IDs of `part` finds exactly the nodes of `part`, each once, whatever the network's order. |
| Validators.LookupFindsSubnetValidators | tests/e2e/vms/xsvm.go:72-83 | With distinct IDs, and every split node also a network node, each subnet's lookup over the network finds exactly the nodes of its half, each once. Both lookups are non-empty when there is a node, so the non-empty checks pass. |
| Validators.LookupReturnsSubnetHalf | tests/e2e/vms/xsvm.go:72-83 | When the network's node list is the split list itself and IDs are distinct, each subnet's lookup returns its half exactly, in order. |
| Decimal.FormatNat | tests/e2e/vms/xsvm.go:234 | `%d` of a non-negative integer is at least one digit long, has no leading zero, and is one digit long exactly below 10. |
| Decimal.ParseFormat | tests/e2e/vms/xsvm.go:234 | Reading the decimal numeral back gives the number. |
| Decimal.FormatInjective | tests/e2e/vms/xsvm.go:254 | Two numbers have the same numeral if and only if they are equal. |
| StreamPing.Ping | tests/e2e/vms/xsvm.go:234 | The i-th message is `"ping-"` followed by decimal digits: the numeral of i written by `Decimal.FormatNat`. |
| StreamPing.PingInjective | tests/e2e/vms/xsvm.go:234-254 | `"ping-i"` equals `"ping-j"` if and only if i equals j. |
| StreamPing.SendPings | tests/e2e/vms/xsvm.go:232-245 | The sender sends `"ping-0"`, `"ping-1"`, ... in index order, and every message it counts as sent was accepted. It passes if and only if all n were sent. Otherwise it returns the error of the first failed send. |
| StreamPing.ReceivePings | tests/e2e/vms/xsvm.go:247-262 | The receiver passes if and only if each of the first n replies is `"ping-i"` for its index i. Otherwise it reports the error at the first index where this fails: end of stream, the receive error, or the unexpected message. |
| StreamPing.EchoAccepted | tests/e2e/vms/xsvm.go:248-256 | Over an echoing server, the receiver accepts if and only if the first n messages are the pings 0..n-1 in order. Too few messages are rejected. |
| StreamPing.EchoedSessionPasses | tests/e2e/vms/xsvm.go:229-264 | Once the sender has passed, an echoing server's replies pass the receiver's check. |
| StreamPing.TestExchangePasses | tests/e2e/vms/xsvm.go:231-262 | With the test's n = 10, the ten pings are pairwise distinct, and echoing them back passes the receiver's check. |
| StreamPing.ReorderedRepliesRejected | tests/e2e/vms/xsvm.go:248-256 | Echoed pings that come in any order moving some index are rejected. |

## Left out

- The cross-subnet transfer (balance queries, export, acceptance polling,
  transfer, import) calls packages that are not part of this model (`api`,
  `export`, `transfer`, `importtx`). Their conservation, nonce and idempotence
  behaviour is not implemented in this file, so it is not modelled.
- The unary `Ping` call: the echo is the server's behaviour, and the server is
  not part of this model.
- Concurrency: the two goroutines of the stream exchange and the errgroup join
  are left out. The sender and the receiver are modelled as separate loops.
  `EchoedSessionPasses` relates them only for an echoing server.
- The transport: gRPC, insecure credentials, connection set-up and closing
  are not modelled. The replies are a finite sequence, and its end stands for
  the `io.EOF` that a receive returns once the server has closed. The outcome
  of each send is a function of the send's index and message.
- Node identity: nodes are `*tmpnet.Node` pointers in Go and values here, so
  two distinct nodes with equal fields are not told apart. Go slices share
  memory with their source, but the model's sequences are values. The split
  halves and the lookup inputs therefore cannot be changed through an alias.
  The lookup never writes to its inputs anyway.
- Validators.LookupFindsSubnetValidators: it assumes that a subnet's
  `ValidatorIDs` are the IDs of the nodes it was created with, and that every
  split node is a node of the network. `subnet.NewXSVMOrPanic` and the code
  that builds the network are not part of this model. It promises the nodes
  found and no duplicates, not their order. The order follows the network's
  list, which need not be the split order.
- Validators.LookupReturnsSubnetHalf: it also assumes that the network's node
  list is the split list, in the same order. Only then does each lookup return
  its half in order.
- Key generation, subnet and chain construction, panics, logging, the 50 ms
  polling interval, the kube skip and the test harness are left out.
