# JoinManager join planner, modelled in Dafny

This project models the join planner of jsonapi-resources,
`JSONAPI::ActiveRelation::JoinManager`. The planner is built for one
resource type from four inputs:

- its filter keys;
- its sort criteria;
- its include paths;
- an optional source relationship, given when the query is reached from a parent resource.

It resolves every key to a path of relationship hops and registers each hop
once in a tree. Its single `join` call then adds one join per registered
node to the query. Afterwards it answers three lookups:

- `source_join_details` (`SourceJoinDetails`);
- `join_details_by_relationship` (`JoinDetailsByRelationship`);
- `join_details_by_polymorphic_relationship` (`JoinDetailsByPolymorphicRelationship`).

Each lookup returns the join's alias, its join type (`root`, `inner` or
`left`) and its join options. The join options are the relationship, the
relationship details and the related resource type.

The modules follow the planner's parts:

| module | file | what it holds |
|---|---|---|
| `Wrappers` | `wrappers.dfy` | `Option` and `Result` |
| `Schema` | `schema.dfy` | the catalog of resource types, their tables and relationships; a polymorphic relationship lists its concrete targets |
| `Paths` | `paths.dfy` | the pure path resolver |
| `Registry` | `registry.dfy` | the deduplicating registry of tree nodes |
| `Planning` | `planning.dfy` | what a request registers, and what the registry holds afterwards |
| `Emission` | `emission.dfy` | emission order, aliases, join details and join clauses |
| `JoinManagers` | `join_manager.dfy` | the stateful `JoinManager` class and the lemmas about its state |
| `Scenarios` | `scenarios.dfy` | the test file's requests on a fixed catalog |

**Paths.** The resolver splits a key on `.`. A segment `a#t` names
relationship `a`, narrowed to its target `t`. The last segment may be a field
name, which adds no hop. An unknown relationship, or a `#t` that is not a
target of a polymorphic relationship, is a `PathError`.

**Registry.** A tree node is the sequence of (relationship, concrete target)
segments from the root.

**The JoinManager class.** The class keeps the registry as two fields: the
node order, a `seq`, and the join types, a `map`. Its constructor fills them
in place, one registration at a time, in this order:

1. the root;
2. the source relationship's nodes;
3. every node of every filter path, then every sort path, then every include path.

A known node keeps its join type, which is merged with the new one. A new node
is appended to the order. The root is `root`. A plain source relationship is
`inner`. A polymorphic source and every path node are `left`.

`Join` emits the nodes level by level: the root, then all one-hop nodes, then
all two-hop nodes, and so on, keeping registration order within a level.
Each node gets the first free alias of:

- its table name;
- `<plural relationship name>_<owner table>`;
- that name with underscores appended.

`Join` adds one join clause per non-root node and records the details per node.

The main properties, for requests whose keys all resolve:

- The registry holds exactly the root, the source's nodes and every prefix of
  every path, each once, and it is prefix-closed.
- Join types: the root is `root`, a plain source's node is `inner`, and every
  other node is `left`. Proved for every input with `Planning.PlanTypes` and
  `JoinManagers.RegisteredNodes`.
- The registry's join types depend only on the set of keys, not on their
  order and not on repeated keys.
- Emission lists every node once. A node always comes after its parent, and
  registration order is kept within a level.
- Aliases are distinct, the root table's name belongs to the root alone, and a
  free table name is used as it is.
- The join clauses added are exactly one per non-root node, in emission
  order, after the query's existing joins. A second `join` fails and changes
  nothing.
- A lookup by relationship returns the shallowest node reached along that
  relationship; the source lookup returns the source's node (or the root).
  Their join options are the relationship, its join type and the concrete
  type.

Every test of
`test/unit/active_relation_resource_finder/join_manager_test.rb` except
`test_add_joins_source_relationship_with_custom_apply` (lines 103-114) becomes
a lemma in `Scenarios`, over a catalog `Scenarios.Fixture` with posts,
comments, people, tags, pictures, products, documents and file properties.
Each lemma states the aliases and join types the test asserts. The excepted
test differs from lines 92-100 only in a custom WHERE condition (see
"## Left out"), and `Scenarios.SourceOnlyJoin` states its join details.

The implementation file of the JoinManager is not part of this model. Its
behaviour is taken from the test's assertions. Where a simpler rule would
contradict them, the model follows the test.

Emission is by level, not plain registration order, for this reason. Test
lines 127-131 and 144-148 both expect posts' author to be `people` and
comments' author to be `authors_comments`, whichever filter comes first. If
nodes were joined in registration order, `comments.author` first would give
comments' author the name `people`.

A polymorphic source relationship is registered `left`, not `inner`, because
test lines 213-216 assert `left`.

## Model

| member | source | states |
|---|---|---|
| Schema.FindRelationship | test/unit/active_relation_resource_finder/join_manager_test.rb:36 | a relationship is found exactly when the owner type is in the catalog and declares that name, and it is the relationship the owner declares under that name |
| Paths.Split | test/unit/active_relation_resource_finder/join_manager_test.rb:117-120 | splitting a key yields at least one piece and no piece contains the separator |
| Paths.JoinedSplit | test/unit/active_relation_resource_finder/join_manager_test.rb:117-120 | joining the pieces of a split with the separator gives back the key |
| Paths.SplitJoined | test/unit/active_relation_resource_finder/join_manager_test.rb:117-120 | splitting pieces joined with the separator gives back the pieces, when none contains it |
| Paths.DropTrailingEmpty | test/unit/active_relation_resource_finder/join_manager_test.rb:153-155 | the result is a prefix of the pieces, ends in a non-empty piece and drops only empty pieces |
| Paths.Segments | test/unit/active_relation_resource_finder/join_manager_test.rb:153-155 | no segment of a path contains `.` and the last one is not empty |
| Paths.SegmentsOfJoined | test/unit/active_relation_resource_finder/join_manager_test.rb:153-155 | the segments of non-empty dot-free names joined by `.` are those names |
| Paths.SplitTag | test/unit/active_relation_resource_finder/join_manager_test.rb:234 | a segment splits at its first `#` into a `#`-free relationship name and the type after it, which rebuild the segment; without `#` the segment is the name |
| Paths.SplitTagOf | test/unit/active_relation_resource_finder/join_manager_test.rb:234 | `name#type` with a `#`-free name splits into that name and that type |
| Paths.IndexOf | test/unit/active_relation_resource_finder/join_manager_test.rb:234 | the index returned holds the first occurrence of the character |
| Paths.ResolveSegments | test/unit/active_relation_resource_finder/join_manager_test.rb:151-166 | a resolved path follows the catalog hop by hop, with a `#type` only on a polymorphic hop that declares that type; at most the last segment is a field, and it is one exactly when there is one hop fewer than segments; a failure names one of the segments |
| Paths.ResolvedHopsNamed | test/unit/active_relation_resource_finder/join_manager_test.rb:116-166 | hop i of a resolved path is the relationship segment i names on the type the earlier hops reach, with segment i's `#type`; a trailing field names no relationship on the type reached and has no type, or an empty one |
| Paths.ResolveFailsAt | test/unit/active_relation_resource_finder/join_manager_test.rb:232-249 | a failed resolution fails at a segment whose predecessors all resolve to hops: it names no relationship on the type reached and is not the trailing field, reported as an unknown relationship of that type, or it names one whose `#type` is not a declared polymorphic target, reported with the relationship's name; either error carries that segment |
| Paths.TrailingFieldAddsNoHop | test/unit/active_relation_resource_finder/join_manager_test.rb:53-62 | appending a field name that is no relationship of the reached type keeps the hops and records the field |
| Paths.ResolveStep | test/unit/active_relation_resource_finder/join_manager_test.rb:116-121 | a path starting with a relationship resolves to that hop followed by the rest resolved from its target |
| Paths.ExpandMembers | test/unit/active_relation_resource_finder/join_manager_test.rb:219-230 | the nodes of a path are exactly the position sequences that pick one reachable target per hop, for every prefix of the path: a polymorphic hop without `#type` fans out to every target |
| Registry.RegisterAllFacts | test/unit/active_relation_resource_finder/join_manager_test.rb:64-73 | after any registrations the order lists each registered node once, the registered nodes are exactly those some registration names, and each node's join type is the merge of all join types it was registered with |
| Registry.MergeAgreed | test/unit/active_relation_resource_finder/join_manager_test.rb:169-181 | merging join types one registration at a time agrees with merging them all |
| Registry.RegisterAllKnown | test/unit/active_relation_resource_finder/join_manager_test.rb:183-203 | registering again nodes already registered, with types that do not change theirs, leaves the registry as it was |
| Registry.TypesAtAppend | test/unit/active_relation_resource_finder/join_manager_test.rb:64-73 | the join types registered for a node by two runs of registrations are those of the first run then those of the second |
| Planning.Collect | test/unit/active_relation_resource_finder/join_manager_test.rb:116-121 | all results succeed exactly when the collection does, with the values in order; otherwise the collection fails with the first failure |
| Planning.ResolveAll | test/unit/active_relation_resource_finder/join_manager_test.rb:169-173 | every key resolves, relative to the source relationship when there is one, exactly when the request does, and then the paths are the keys' in order; otherwise the request fails with the first key's error |
| Planning.PathRegistrationsAppend | test/unit/active_relation_resource_finder/join_manager_test.rb:183-189 | the registrations of two runs of paths are those of the first run then those of the second |
| Planning.PathRegistrationsFacts | test/unit/active_relation_resource_finder/join_manager_test.rb:29-37 | every path node is registered `left`, and a node is named exactly when some path reaches it |
| Planning.SourceRegistrationsFacts | test/unit/active_relation_resource_finder/join_manager_test.rb:92-100 | the source registers exactly its own nodes, each with the source's join type |
| Planning.PlanPositions | test/unit/active_relation_resource_finder/join_manager_test.rb:75-89 | the registry holds exactly the root, the source relationship's nodes and every node of every resolved path |
| Planning.PlanPrefixClosed | test/unit/active_relation_resource_finder/join_manager_test.rb:116-131 | every registered node's parent is registered before it |
| Planning.PlanTypes | test/unit/active_relation_resource_finder/join_manager_test.rb:169-181 | the root is `root`, a plain source's node `inner` even when paths name it again, and every other node `left` |
| Planning.SamePathsSameTypes | test/unit/active_relation_resource_finder/join_manager_test.rb:133-148 | two lists of paths with the same members register the same nodes with the same join types |
| Planning.OrderIndependent | test/unit/active_relation_resource_finder/join_manager_test.rb:133-148 | two key lists with the same members both resolve or neither does, and give the same nodes and join types |
| Planning.KeyResultsSameMembers | test/unit/active_relation_resource_finder/join_manager_test.rb:133-148 | key lists with the same members give resolution results with the same members |
| Planning.CollectSameMembers | test/unit/active_relation_resource_finder/join_manager_test.rb:133-148 | results with the same members collect to paths with the same members |
| Emission.AtDepthMembers | test/unit/active_relation_resource_finder/join_manager_test.rb:116-131 | one level of the order holds exactly the nodes of that depth |
| Emission.MaxDepth | test/unit/active_relation_resource_finder/join_manager_test.rb:116-131 | no node is deeper than the maximum depth, which some node reaches |
| Emission.EmissionFacts | test/unit/active_relation_resource_finder/join_manager_test.rb:116-131 | emission lists exactly the registered nodes, each once, never a deeper node before a shallower one |
| Emission.EmissionStable | test/unit/active_relation_resource_finder/join_manager_test.rb:75-89 | within one depth, emission keeps registration order |
| Emission.EmissionParentsFirst | test/unit/active_relation_resource_finder/join_manager_test.rb:116-131 | for a prefix-closed registry every node is emitted after its parent |
| Emission.EmissionOfSorted | test/unit/active_relation_resource_finder/join_manager_test.rb:75-89 | an order already sorted by depth is emitted unchanged |
| Emission.EmissionSameLevels | test/unit/active_relation_resource_finder/join_manager_test.rb:133-148 | orders that agree level by level are emitted the same |
| Emission.EmissionSwap | test/unit/active_relation_resource_finder/join_manager_test.rb:133-148 | exchanging two runs of registrations at different depths does not change emission |
| Emission.FreshName | test/unit/active_relation_resource_finder/join_manager_test.rb:129 | the name is unused, is the candidate itself when that is free, and extends the candidate |
| Emission.AliasFor | test/unit/active_relation_resource_finder/join_manager_test.rb:180 | the alias is unused; it is the target table when that is free, otherwise the plural relationship name and owner table when free, otherwise an extension of it |
| Emission.PerformDetails | test/unit/active_relation_resource_finder/join_manager_test.rb:39-51 | emission records details for exactly the emitted nodes: the root under its table's name, every node with its join type, relationship and concrete type in its join options |
| Emission.PerformAliases | test/unit/active_relation_resource_finder/join_manager_test.rb:116-131 | after emitting distinct nodes no two share an alias, every alias is in use, and the root table's name is the root's alone |
| Emission.StepFacts | test/unit/active_relation_resource_finder/join_manager_test.rb:85 | one emission step records the node, keeps every other node's details, uses a fresh alias for a non-root node and adds its join clause from the parent's alias |
| Emission.PerformJoins | test/unit/active_relation_resource_finder/join_manager_test.rb:85 | emitting distinct nodes, parents first, adds one join clause per non-root node, in order, each from its parent's alias to the node's table under its alias |
| Emission.NonRootMembers | test/unit/active_relation_resource_finder/join_manager_test.rb:24 | the nodes that become joins are exactly the non-root nodes |
| JoinManagers.FirstEnding | test/unit/active_relation_resource_finder/join_manager_test.rb:36 | the index found is the first node reached along the segment, and none means no node is |
| JoinManagers.FirstEndingShallowest | test/unit/active_relation_resource_finder/join_manager_test.rb:128-131 | in a depth-sorted order the first node along a segment exists exactly when some node ends in it, and is the shallowest such node |
| JoinManagers.JoinManager.constructor | test/unit/active_relation_resource_finder/join_manager_test.rb:31 | a new manager keeps its inputs, is not joined, and its registry is the plan of its resolved keys |
| JoinManagers.JoinManager.RegisterContributions | test/unit/active_relation_resource_finder/join_manager_test.rb:31 | the registry fields, filled in place, hold the registry of the root, the source and the paths |
| JoinManagers.JoinManager.RegisterPaths | test/unit/active_relation_resource_finder/join_manager_test.rb:31 | registering the paths one by one in place gives the registry of all their registrations |
| JoinManagers.JoinManager.RegisterEach | test/unit/active_relation_resource_finder/join_manager_test.rb:31 | registering nodes one by one in place gives the registry of all of them |
| JoinManagers.JoinManager.RegisterHop | test/unit/active_relation_resource_finder/join_manager_test.rb:64-73 | one registration appends a new node, or merges the type of a known node, and changes nothing else |
| JoinManagers.JoinManager.Join | test/unit/active_relation_resource_finder/join_manager_test.rb:23 | the first call returns the query with its table, its joins, then the joins that emitting the nodes in emission order produces, and records emission order and details; a second call fails and changes nothing |
| JoinManagers.JoinedClauses | test/unit/active_relation_resource_finder/join_manager_test.rb:23 | after the join, the joins emission produced are one clause per non-root node in emission order, each matching the details recorded for that node |
| JoinManagers.JoinManager.JoinDetailsByPolymorphicRelationship | test/unit/active_relation_resource_finder/join_manager_test.rb:215-216 | a result is the details of an emitted node reached along that relationship and type |
| JoinManagers.EmitAll | test/unit/active_relation_resource_finder/join_manager_test.rb:23 | the loop emits the nodes in order to the state the emission function specifies |
| JoinManagers.EmittedFacts | test/unit/active_relation_resource_finder/join_manager_test.rb:23 | every emitted node is registered, and the joins emitted match one clause per non-root emitted node |
| JoinManagers.NewJoinManager | test/unit/active_relation_resource_finder/join_manager_test.rb:20 | a manager is made exactly when every key resolves, otherwise its failure is the first key's error; a new manager is fresh, its paths are the resolution of its keys, it is valid and not joined, and it keeps its inputs |
| JoinManagers.RegisteredNodes | test/unit/active_relation_resource_finder/join_manager_test.rb:29-89 | a manager's registry lists each planned node once and only those, each with its planned join type |
| JoinManagers.JoinedDetails | test/unit/active_relation_resource_finder/join_manager_test.rb:116-131 | after the join every registered node is emitted and has details with its planned join type and its join options; aliases are distinct; the root table's name is the root's |
| JoinManagers.RootDetails | test/unit/active_relation_resource_finder/join_manager_test.rb:46-47 | the root's details are its table's name, `root`, and join options with no relationship and the root type |
| JoinManagers.LookupByRelationship | test/unit/active_relation_resource_finder/join_manager_test.rb:49-50 | the lookup by relationship and type finds a node exactly when one ends in it, returns the shallowest such node's details, and its join options are that relationship, its join type and the type |
| JoinManagers.PlainSourceDetails | test/unit/active_relation_resource_finder/join_manager_test.rb:177-178 | a plain source's details are an `inner` join with the source in its options, and the lookup by that relationship returns the same entry |
| JoinManagers.PolymorphicSourceDetails | test/unit/active_relation_resource_finder/join_manager_test.rb:213-216 | for each target of a polymorphic source the source details are a `left` join to that type, the same as the lookup by relationship and type |
| JoinManagers.ShallowestSource | test/unit/active_relation_resource_finder/join_manager_test.rb:177-178 | a one-hop node is what the lookup along its segment returns |
| JoinManagers.NothingBeforeJoin | test/unit/active_relation_resource_finder/join_manager_test.rb:20-23 | before the join every lookup finds nothing |
| JoinManagers.SameKeysSameJoinTypes | test/unit/active_relation_resource_finder/join_manager_test.rb:133-148 | two managers on the same type and source whose keys have the same members register the same nodes with the same join types |
| Scenarios.NoAddedJoins | test/unit/active_relation_resource_finder/join_manager_test.rb:19-27 | with no keys and no source only the root is emitted, so no join is added, and the source details are `posts`, `root` |
| Scenarios.SingleJoin | test/unit/active_relation_resource_finder/join_manager_test.rb:29-73 | any mix of the filter `tags` and the sort `tags.name` gives root `posts` and one `left` join for posts' tags aliased `tags`, with that relationship and type in its options |
| Scenarios.SiblingJoin | test/unit/active_relation_resource_finder/join_manager_test.rb:75-89 | filters `tags` then `author` join tags before author, as `left` joins aliased `tags` and `people`, below root `posts` |
| Scenarios.SourceOnlyJoin | test/unit/active_relation_resource_finder/join_manager_test.rb:92-100 | with posts' comments as source and no keys, the source details are an `inner` join aliased `comments` |
| Scenarios.CommentsFirstJoin | test/unit/active_relation_resource_finder/join_manager_test.rb:116-132 | filters `comments.author`, `comments.tags`, `author` give posts' comments `comments`, comments' author `authors_comments`, comments' tags `tags`, posts' author `people`, all `left` |
| Scenarios.CommentsFieldsJoin | test/unit/active_relation_resource_finder/join_manager_test.rb:151-166 | the same filters ending in the fields `name`, `id` and `foo` give the same aliases and join types |
| Scenarios.AuthorFirstJoin | test/unit/active_relation_resource_finder/join_manager_test.rb:133-148 | with `author` first the aliases and join types are unchanged |
| Scenarios.SubRelationshipJoin | test/unit/active_relation_resource_finder/join_manager_test.rb:169-181 | include paths `author`, `author.comments`, `tags` under posts' comments keep comments `inner` as `comments`, found both as source and by relationship; the author is `people`, the author's comments `comments_people`, comments' tags `tags`, all `left` |
| Scenarios.SubFilterJoin | test/unit/active_relation_resource_finder/join_manager_test.rb:183-203 | adding the filters `author.name` and `author.comments.name` under the same source and include paths gives the same entries |
| Scenarios.ImageableSourceJoin | test/unit/active_relation_resource_finder/join_manager_test.rb:205-217 | with the polymorphic imageable as source, the source details for products and for documents, and the lookups by imageable and type, are `left` joins aliased `products` and `documents` |
| Scenarios.ImageableFilterJoin | test/unit/active_relation_resource_finder/join_manager_test.rb:219-230 | a filter on imageable keeps root `pictures` and fans out to `left` joins `products` and `documents` |
| Scenarios.TaggedJoin | test/unit/active_relation_resource_finder/join_manager_test.rb:232-249 | the filter `imageable#documents.name` with includes `imageable` and `file_properties` keeps root `pictures` and gives `left` joins `products`, `documents` and `file_properties` |
| Scenarios.AliasesFollowOrder | test/unit/active_relation_resource_finder/join_manager_test.rb:116-149 | two one-hop nodes that reach the same table get different aliases depending on which is emitted first: the first takes the table name, the other `<plural relationship name>_<owner table>` |
| Scenarios.RunCommentsFirst | test/unit/active_relation_resource_finder/join_manager_test.rb:116-132 | building a manager on posts with the filters `comments.author`, `comments.tags`, `author` and joining it succeeds on the posts table, and comments' author is then a `left` join aliased `authors_comments` |
| Scenarios.RunSourceOnly | test/unit/active_relation_resource_finder/join_manager_test.rb:92-100 | building a manager on posts with posts' comments as source and joining it succeeds on the posts table, and the source details are then an `inner` join aliased `comments` |
| Scenarios.RunImageableSource | test/unit/active_relation_resource_finder/join_manager_test.rb:205-217 | building a manager on pictures with the polymorphic imageable as source and joining it succeeds on the pictures table, and the source details for products are then a `left` join aliased `products` |

## Left out

- SQL text: the `to_sql` strings and the ON conditions of each join are not modelled. A join clause records the join type, table, alias, relationship and parent alias.
- The `posts_tags` join table: test line 34 joins it before `tags`. The model treats posts' tags as one hop to `tags`.
- `db_true` and the custom `records_for` condition (test lines 6-17 and 103-114). They add a database-specific WHERE condition that the model does not represent. The join details those lines assert are the same as for lines 92-100, which `Scenarios.SourceOnlyJoin` states.
- The `Api::V10` resources and the plain resources share one fixture catalog. Their declarations are external, so `Scenarios.Fixture` holds only the relationships the test uses.
- Filter values, sort directions and the options argument of `join` do not affect which joins are made, so the model carries only the keys.
- Alias naming: ActiveRecord's alias tracker disambiguates a repeated name further with a numeric suffix. `Emission.FreshName` appends underscores instead. Only the first two naming steps appear in the test.
- `JoinManagers.JoinManager.JoinDetailsByRelationship`: returns nothing for a polymorphic relationship. What the implementation does there cannot be seen from the test.
- `JoinManagers.JoinManager.SourceJoinDetails`: for a plain source it ignores the type argument, and with a polymorphic source and no type it returns nothing.
- Emission by level and lookup of the shallowest node are model choices. The implementation file is not part of this model, and these choices agree with every alias the test asserts.
- Planning.OrderIndependent: like `JoinManagers.SameKeysSameJoinTypes`, it promises the same nodes and join types for reordered keys, not the same aliases. Within one depth the node emitted first takes the table name, so aliases can depend on order (`Scenarios.AliasesFollowOrder`). The aliases are stated for the two orders the test uses (`Scenarios.CommentsFirstJoin`, `Scenarios.AuthorFirstJoin`).
- Concurrency does not arise: a manager belongs to one request.
